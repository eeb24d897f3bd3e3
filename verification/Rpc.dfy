/**
 The tables of an RPC vat on one connection (capn-rpc.c): exports with reference counts, joins, and
 provisions with embargoes. A handler is a method; what it passes to the send callback goes to a log.
 Messages are decoded already.
 */
module Rpc {
  const MAX_EXPORTS := 64
  const MAX_PROVISIONS := 32
  const MAX_JOINS := 8
  const MAX_JOIN_PARTS := 16

  datatype Option<T> = None | Some(value: T)

  /** struct capn_rpc_export; a server is known by its identity. */
  datatype Export = Free | Live(refcount: int, server: nat)

  /** struct capn_rpc_provision: promised to whoever brings the nonce, or claimed and held back by an embargo. */
  datatype Provision =
    | Vacant
    | Held(nonce: nat, server: nat, eid: int, provideId: nat)
    | Embargoed(nonce: nat, server: nat, eid: int, provideId: nat, acceptId: nat)

  /** One part of a join: the question it came with and the export its target was resolved to, or -1. */
  datatype JoinPart = Missing | Part(qid: nat, eid: int)

  /** struct capn_rpc_join */
  datatype JoinSlot = Unused | Joining(joinId: nat, nseen: nat, parts: seq<JoinPart>)

  /** Return messages. */
  datatype Sent =
    | Exception(qid: nat)
    | Confirmation(qid: nat)
    | Capability(qid: nat, eid: int)
    | JoinResult(qid: nat, joinId: nat, succeeded: bool, cap: Option<int>)

  /** What a message is addressed to: an export, or what an earlier answer's capability table names. */
  datatype Target = NoTarget | Imported(id: nat) | Promised(hosted: Option<nat>)

  datatype JoinKey = JoinKey(joinId: nat, partCount: nat, partNum: nat)

  datatype Event =
    | Bootstrapping(qid: nat)
    | Releasing(id: nat, count: nat)
    | JoiningPart(qid: nat, key: Option<JoinKey>, target: Target)
    | Providing(qid: nat, target: Target, recipient: Option<nat>)
    | Accepting(qid: nat, nonce: Option<nat>, embargo: bool)
    | Lifting(provideId: nat)
    | Exporting(server: nat)
    | Offering(bootstrap: Option<nat>)

  function JoinAsked(e: Event): multiset<nat> { if e.JoiningPart? then multiset{e.qid} else multiset{} }

  // ---- counting over a table ----------------------------------------------------------------

  /** What the entries of a table contribute, put together. */
  function Bag<T, V(==)>(f: T -> multiset<V>, s: seq<T>): multiset<V> {
    if s == [] then multiset{} else Bag(f, s[..|s| - 1]) + f(s[|s| - 1])
  }

  lemma {:induction false} BagUpdate<T, V>(f: T -> multiset<V>, s: seq<T>, k: nat, x: T)
    requires k < |s|
    ensures Bag(f, s[k := x]) + f(s[k]) == Bag(f, s) + f(x)
  {
    var m := |s| - 1;
    if k < m {
      BagUpdate(f, s[..m], k, x);
      assert s[k := x][..m] == s[..m][k := x];
      Exchanged(Bag(f, s[..m][k := x]), f(s[k]), Bag(f, s[..m]), f(x), f(s[m]));
    } else {
      assert s[k := x][..m] == s[..m];
    }
  }

  lemma Exchanged<V>(a: multiset<V>, b: multiset<V>, c: multiset<V>, d: multiset<V>, e: multiset<V>)
    requires a + b == c + d
    ensures a + e + b == c + e + d
  {
    assert a + e + b == (a + b) + e;
    assert c + e + d == (c + d) + e;
  }

  lemma {:induction false} BagConcat<T, V>(f: T -> multiset<V>, a: seq<T>, b: seq<T>)
    ensures Bag(f, a + b) == Bag(f, a) + Bag(f, b)
  {
    if b == [] {
      assert a + b == a;
    } else {
      var m := |b| - 1;
      BagConcat(f, a, b[..m]);
      assert (a + b)[..|a + b| - 1] == a + b[..m];
    }
  }

  lemma SameBag<T, V>(f: T -> multiset<V>, s: seq<T>, k: nat, x: T)
    requires k < |s| && f(x) == f(s[k])
    ensures Bag(f, s[k := x]) == Bag(f, s)
  {
    BagUpdate(f, s, k, x);
    var a, b := Bag(f, s[k := x]), Bag(f, s);
    hide Bag;
    assert a == (a + f(x)) - f(x) && b == (b + f(x)) - f(x);
  }

  lemma BagSnoc<T, V>(f: T -> multiset<V>, s: seq<T>, x: T)
    ensures Bag(f, s + [x]) == Bag(f, s) + f(x)
  {
    assert (s + [x])[..|s|] == s;
  }

  lemma BagStep<T, V>(f: T -> multiset<V>, s: seq<T>, n: nat)
    requires n < |s|
    ensures Bag(f, s[..n + 1]) == Bag(f, s[..n]) + f(s[n])
  {
    assert s[..n + 1] == s[..n] + [s[n]];
    BagSnoc(f, s[..n], s[n]);
  }

  lemma {:induction false} BagHas<T, V>(f: T -> multiset<V>, s: seq<T>, k: nat)
    requires k < |s|
    ensures f(s[k]) <= Bag(f, s)
  {
    if k < |s| - 1 {
      BagHas(f, s[..|s| - 1], k);
    }
  }

  lemma {:induction false} BagEmpty<T, V>(f: T -> multiset<V>, s: seq<T>)
    requires forall i | 0 <= i < |s| :: f(s[i]) == multiset{}
    ensures Bag(f, s) == multiset{}
  {
    if s != [] {
      BagEmpty(f, s[..|s| - 1]);
    }
  }

  /** Entries that contribute one each at most contribute as many as there are only if every one does. */
  lemma {:induction false} BagFull<T, V>(f: T -> multiset<V>, s: seq<T>)
    requires forall i | 0 <= i < |s| :: |f(s[i])| <= 1
    ensures |Bag(f, s)| <= |s|
    ensures |Bag(f, s)| == |s| ==> forall i | 0 <= i < |s| :: |f(s[i])| == 1
  {
    if s != [] {
      BagFull(f, s[..|s| - 1]);
    }
  }

  // ---- the export table ---------------------------------------------------------------------

  /** Used slots have references and name different servers. */
  ghost predicate ExportTable(exports: seq<Export>)
    ensures ExportTable(exports) ==> |exports| == MAX_EXPORTS
  {
    && |exports| == MAX_EXPORTS
    && (forall i | 0 <= i < |exports| && exports[i].Live? :: exports[i].refcount >= 1)
    && forall i, j | 0 <= i < j < |exports| && exports[i].Live? && exports[j].Live? ::
        exports[i].server != exports[j].server
  }

  predicate Hosts(exports: seq<Export>, i: int) { 0 <= i < |exports| && exports[i].Live? }

  ghost predicate HostsServer(exports: seq<Export>, i: int, server: nat) {
    Hosts(exports, i) && exports[i].server == server
  }

  /** resolve_target */
  function Resolve(exports: seq<Export>, t: Target): (eid: int)
    ensures eid == -1 || Hosts(exports, eid)
  {
    match t
    case NoTarget => -1
    case Imported(id) => if Hosts(exports, id) then id else -1
    case Promised(Some(id)) => if Hosts(exports, id) then id else -1
    case Promised(None) => -1
  }

  /** The target is export i, named directly or by an earlier answer. */
  ghost predicate TargetAt(exports: seq<Export>, t: Target, i: int) {
    0 <= i < |exports| && exports[i].Live? && (t == Imported(i) || t == Promised(Some(i)))
  }

  /** An embargoed Accept holds a reference to the export it claimed. */
  function ClaimOf(p: Provision): multiset<int> { if p.Embargoed? then multiset{p.eid} else multiset{} }

  /**
   Who holds references: the peer, embargoed Accepts, and everybody else, that is the application and the
   provisions. `given` is the server that the peer's references were given for.
   */
  datatype Ledger = Ledger(peer: seq<nat>, other: seq<nat>, given: seq<nat>)

  ghost predicate Balanced(exports: seq<Export>, provisions: seq<Provision>, l: Ledger, i: nat)
    requires i < |exports| && i < |l.peer| && i < |l.other| && i < |l.given|
  {
    var held := l.peer[i] + Bag(ClaimOf, provisions)[i] + l.other[i];
    if exports[i].Live? then exports[i].refcount == held && (l.peer[i] > 0 ==> exports[i].server == l.given[i])
    else held == 0
  }

  /** Every count is the sum of what is held. */
  ghost predicate Accounted(exports: seq<Export>, provisions: seq<Provision>, l: Ledger)
    ensures Accounted(exports, provisions, l) ==> |exports| == |l.peer| == |l.other| == |l.given| == MAX_EXPORTS
  {
    && |exports| == |l.peer| == |l.other| == |l.given| == MAX_EXPORTS
    && forall i | 0 <= i < |exports| :: Balanced(exports, provisions, l, i)
  }

  /** A claimed capability is still exported where its Accept will be told. */
  ghost predicate ClaimsHosted(exports: seq<Export>, provisions: seq<Provision>) {
    forall k | 0 <= k < |provisions| && provisions[k].Embargoed? ::
      HostsServer(exports, provisions[k].eid, provisions[k].server)
  }

  // ---- joins --------------------------------------------------------------------------------

  function PartQid(p: JoinPart): multiset<nat> { if p.Part? then multiset{p.qid} else multiset{} }

  /** The questions of the parts that are in. */
  function JoinQids(j: JoinSlot): multiset<nat> { if j.Joining? then Bag(PartQid, j.parts) else multiset{} }

  function AnswerQid(s: Sent): multiset<nat> { if s.JoinResult? then multiset{s.qid} else multiset{} }

  ghost predicate SlotOk(j: JoinSlot) {
    j.Joining? ==> 1 <= |j.parts| <= MAX_JOIN_PARTS && j.nseen == |JoinQids(j)|
  }

  ghost predicate Unfinished(j: JoinSlot) { j.Joining? ==> j.nseen < |j.parts| }

  /** The joins are all different, and their parts are counted. */
  ghost predicate JoinTable(joins: seq<JoinSlot>)
    ensures JoinTable(joins) ==> |joins| == MAX_JOINS
  {
    && |joins| == MAX_JOINS && (forall i | 0 <= i < |joins| :: SlotOk(joins[i]))
    && forall i, j | 0 <= i < j < |joins| && joins[i].Joining? && joins[j].Joining? ::
        joins[i].joinId != joins[j].joinId
  }

  ghost predicate Complete(parts: seq<JoinPart>) { parts != [] && forall i | 0 <= i < |parts| :: parts[i].Part? }

  /** The targets are one object that is hosted here. */
  ghost predicate Same(parts: seq<JoinPart>)
    requires Complete(parts)
  {
    parts[0].eid >= 0 && forall i | 0 <= i < |parts| :: parts[i].eid == parts[0].eid
  }

  /** The answers to the first n parts of a finished join; the first one carries the capability. */
  function Answers(joinId: nat, parts: seq<JoinPart>, same: bool, n: nat): (log: seq<Sent>)
    requires n <= |parts| && forall i | 0 <= i < |parts| :: parts[i].Part?
    ensures |log| == n && forall x | 0 <= x < n :: log[x].JoinResult?
  {
    if n == 0 then []
    else
      var cap := if same && n == 1 then Some(parts[0].eid) else None;
      Answers(joinId, parts, same, n - 1) + [JoinResult(parts[n - 1].qid, joinId, same, cap)]
  }

  lemma {:induction false} AnswersAsked(joinId: nat, parts: seq<JoinPart>, same: bool, n: nat)
    requires n <= |parts| && forall i | 0 <= i < |parts| :: parts[i].Part?
    ensures Bag(AnswerQid, Answers(joinId, parts, same, n)) == Bag(PartQid, parts[..n])
  {
    if n > 0 {
      hide *;
      AnswersAsked(joinId, parts, same, n - 1);
      AnswersStep(joinId, parts, same, n);
      BagStep(PartQid, parts, n - 1);
      PartIs(parts[n - 1]);
    } else {
      assert parts[..n] == [];
    }
  }

  lemma PartIs(p: JoinPart)
    requires p.Part?
    ensures PartQid(p) == multiset{p.qid}
  {
  }

  lemma AnswersStep(joinId: nat, parts: seq<JoinPart>, same: bool, n: nat)
    requires 0 < n <= |parts| && forall i | 0 <= i < |parts| :: parts[i].Part?
    ensures Bag(AnswerQid, Answers(joinId, parts, same, n))
      == Bag(AnswerQid, Answers(joinId, parts, same, n - 1)) + multiset{parts[n - 1].qid}
  {
    hide Bag;
    var cap := if same && n == 1 then Some(parts[0].eid) else None;
    BagSnoc(AnswerQid, Answers(joinId, parts, same, n - 1), JoinResult(parts[n - 1].qid, joinId, same, cap));
  }

  /** The join that the slot takes a part for: its own, or a new one. */
  function Opened(j: JoinSlot, joinId: nat, partCount: nat): JoinSlot {
    if j.Joining? then j else Joining(joinId, 0, seq(partCount, _ => Missing))
  }

  /** Slot k holds this join, or none does and slot k is unused. */
  ghost predicate PlaceFor(joins: seq<JoinSlot>, k: nat, key: JoinKey)
    ensures PlaceFor(joins, k, key) ==> k < |joins|
  {
    && k < |joins|
    && if joins[k].Joining? then joins[k].joinId == key.joinId && |joins[k].parts| == key.partCount
       else forall j | 0 <= j < |joins| && joins[j].Joining? :: joins[j].joinId != key.joinId
  }

  predicate KeyOk(key: JoinKey) { key.partNum < key.partCount <= MAX_JOIN_PARTS }

  ghost predicate NoPlaceFor(joins: seq<JoinSlot>, key: JoinKey) {
    forall k | 0 <= k < |joins| :: !PlaceFor(joins, k, key)
  }

  /** A part cannot be taken: its key is bad, it has no slot, or another part has its number. */
  ghost predicate Refused(joins: seq<JoinSlot>, key: Option<JoinKey>) {
    || key.None? || !KeyOk(key.value) || NoPlaceFor(joins, key.value)
    || exists k | 0 <= k < |joins| && PlaceFor(joins, k, key.value) && joins[k].Joining? ::
        joins[k].parts[key.value.partNum].Part?
  }

  /** The join once a part is in. */
  function WithPart(j: JoinSlot, n: nat, qid: nat, eid: int): JoinSlot
    requires j.Joining? && n < |j.parts|
  {
    Joining(j.joinId, j.nseen + 1, j.parts[n := Part(qid, eid)])
  }

  /**
   What a part that is taken does: it waits in slot k, or else it finishes the join, which succeeds just if all
   targets are one hosted object; that object then gains a reference.
   */
  ghost predicate Joined(j: JoinSlot, n: nat, qid: nat, eid: int, k: nat, joins: seq<JoinSlot>, joins': seq<JoinSlot>,
      exports: seq<Export>, exports': seq<Export>, log: seq<Sent>, log': seq<Sent>)
    requires j.Joining? && n < |j.parts| && k < |joins|
  {
    var full := WithPart(j, n, qid, eid);
    if Unfinished(full) then joins' == joins[k := full] && exports' == exports && log' == log
    else
      && Complete(full.parts) && joins' == joins[k := Unused]
      && log' == log + Answers(j.joinId, full.parts, Same(full.parts), |full.parts|)
      && if Same(full.parts) then
           && Hosts(exports, full.parts[0].eid)
           && exports' == Bumped(exports, full.parts[0].eid, exports[full.parts[0].eid].server)
         else exports' == exports
  }

  /** Only join results are sent. */
  lemma JoinedSends(j: JoinSlot, n: nat, qid: nat, eid: int, k: nat, joins: seq<JoinSlot>, joins': seq<JoinSlot>,
      exports: seq<Export>, exports': seq<Export>, log: seq<Sent>, log': seq<Sent>)
    requires j.Joining? && n < |j.parts| && k < |joins|
    requires Joined(j, n, qid, eid, k, joins, joins', exports, exports', log, log')
    ensures log <= log' && forall x | |log| <= x < |log'| :: log'[x].JoinResult?
  {
    hide Same, Bumped;
  }

  lemma RefusedAt(joins: seq<JoinSlot>, k: nat, key: JoinKey)
    requires JoinTable(joins) && PlaceFor(joins, k, key) && KeyOk(key)
    ensures Refused(joins, Some(key)) <==> joins[k].Joining? && joins[k].parts[key.partNum].Part?
  {
  }

  lemma RefusedEarly(joins: seq<JoinSlot>, key: Option<JoinKey>)
    ensures key.None? || !KeyOk(key.value) || NoPlaceFor(joins, key.value) ==> Refused(joins, key)
  {
  }

  lemma TableKept(joins: seq<JoinSlot>, k: nat, j: JoinSlot)
    requires JoinTable(joins) && k < |joins| && SlotOk(j)
    requires j.Joining? ==> joins[k].Joining? && j.joinId == joins[k].joinId
    ensures JoinTable(joins[k := j])
  {
    hide SlotOk;
  }

  // ---- what parts name ----------------------------------------------------------------------

  /** What the target was when the part came: a server, or nothing hosted here. */
  ghost predicate Names(exports: seq<Export>, eid: int, who: Option<nat>) {
    if who.Some? then HostsServer(exports, eid, who.value) else eid == -1
  }

  ghost function Who(exports: seq<Export>, eid: int): Option<nat> {
    if Hosts(exports, eid) then Some(exports[eid].server) else None
  }

  /** A target is resolved to the export that it names; what it names is the server of that export. */
  lemma ResolveIs(exports: seq<Export>, t: Target)
    ensures var eid := Resolve(exports, t);
      if eid == -1 then (forall i :: !TargetAt(exports, t, i)) && Who(exports, eid) == None
      else
        && TargetAt(exports, t, eid) && (forall i :: TargetAt(exports, t, i) ==> i == eid)
        && Who(exports, eid) == Some(exports[eid].server)
  {
  }

  /** The exports that waiting parts recorded still name the servers that the parts named. */
  ghost predicate NamesHold(exports: seq<Export>, joins: seq<JoinSlot>, named: seq<seq<Option<nat>>>)
    ensures NamesHold(exports, joins, named) ==> |named| == |joins|
  {
    && |named| == |joins|
    && forall i | 0 <= i < |joins| && joins[i].Joining? :: PartsHold(exports, joins[i].parts, named[i])
  }

  ghost predicate PartsHold(exports: seq<Export>, parts: seq<JoinPart>, names: seq<Option<nat>>) {
    |names| == |parts| && forall n | 0 <= n < |parts| && parts[n].Part? :: Names(exports, parts[n].eid, names[n])
  }

  /** Every part named the same server. */
  ghost predicate OneServer(names: seq<Option<nat>>) {
    names != [] && names[0].Some? && forall n | 0 <= n < |names| :: names[n] == names[0]
  }

  /** A waiting part recorded this export. */
  ghost predicate Recorded(joins: seq<JoinSlot>, eid: int) {
    exists i, n | 0 <= i < |joins| && joins[i].Joining? && 0 <= n < |joins[i].parts| ::
      joins[i].parts[n].Part? && joins[i].parts[n].eid == eid
  }

  /** Different servers are different exports, so comparing exports compares servers. */
  lemma SameServer(exports: seq<Export>, parts: seq<JoinPart>, names: seq<Option<nat>>)
    requires ExportTable(exports) && Complete(parts) && PartsHold(exports, parts, names)
    ensures Same(parts) <==> OneServer(names)
  {
    assert Names(exports, parts[0].eid, names[0]);
    forall n | 0 <= n < |parts| && parts[0].eid >= 0 ensures parts[n].eid == parts[0].eid <==> names[n] == names[0] {
      assert Names(exports, parts[n].eid, names[n]);
    }
  }

  lemma NamesBumped(exports: seq<Export>, joins: seq<JoinSlot>, named: seq<seq<Option<nat>>>, i: nat, server: nat)
    requires NamesHold(exports, joins, named) && SlotFor(exports, i, server)
    ensures NamesHold(Bumped(exports, i, server), joins, named)
  {
    hide PartsHold;
    forall k | 0 <= k < |joins| && joins[k].Joining?
      ensures PartsHold(Bumped(exports, i, server), joins[k].parts, named[k])
    {
      PartsBumped(exports, joins[k].parts, named[k], i, server);
    }
  }

  lemma PartsBumped(exports: seq<Export>, parts: seq<JoinPart>, names: seq<Option<nat>>, i: nat, server: nat)
    requires PartsHold(exports, parts, names) && SlotFor(exports, i, server)
    ensures PartsHold(Bumped(exports, i, server), parts, names)
  {
    forall n | 0 <= n < |parts| && parts[n].Part?
      ensures Names(Bumped(exports, i, server), parts[n].eid, names[n])
    {
      assert Names(exports, parts[n].eid, names[n]);
    }
  }

  lemma NamesReleased(exports: seq<Export>, joins: seq<JoinSlot>, named: seq<seq<Option<nat>>>, i: nat, count: nat)
    requires NamesHold(exports, joins, named) && Hosts(exports, i) && count < 2 * INT_LIMIT
    requires Released(exports, i, count)[i].Free? ==> !Recorded(joins, i)
    ensures NamesHold(Released(exports, i, count), joins, named)
  {
    var exports' := Released(exports, i, count);
    forall k | 0 <= k < |joins| && joins[k].Joining? ensures PartsHold(exports', joins[k].parts, named[k]) {
      var parts := joins[k].parts;
      assert PartsHold(exports, parts, named[k]);
      forall n | 0 <= n < |parts| && parts[n].Part? ensures Names(exports', parts[n].eid, named[k][n]) {
        assert Names(exports, parts[n].eid, named[k][n]);
      }
    }
  }

  lemma NamesPart(exports: seq<Export>, parts: seq<JoinPart>, names: seq<Option<nat>>, n: nat, qid: nat, eid: int)
    requires PartsHold(exports, parts, names) && n < |parts| && (eid == -1 || Hosts(exports, eid))
    ensures PartsHold(exports, parts[n := Part(qid, eid)], names[n := Who(exports, eid)])
  {
  }

  lemma NamesKept(exports: seq<Export>, joins: seq<JoinSlot>, named: seq<seq<Option<nat>>>, k: nat, j: JoinSlot,
      names: seq<Option<nat>>)
    requires NamesHold(exports, joins, named) && k < |joins| && (j.Joining? ==> PartsHold(exports, j.parts, names))
    ensures NamesHold(exports, joins[k := j], named[k := names])
  {
    hide PartsHold;
  }

  /** What the parts that slot k has already named; a new join has none. */
  ghost function NamesIn(j: JoinSlot, key: JoinKey, names: seq<Option<nat>>): (known: seq<Option<nat>>)
    requires j.Joining? ==> |names| == key.partCount
    ensures |known| == key.partCount
  {
    if j.Joining? then names else seq(key.partCount, _ => None)
  }

  lemma NamesTaken(exports: seq<Export>, j: JoinSlot, key: JoinKey, names: seq<Option<nat>>, qid: nat, eid: int)
    requires KeyOk(key) && (eid == -1 || Hosts(exports, eid))
    requires j.Joining? ==> |j.parts| == key.partCount && PartsHold(exports, j.parts, names)
    ensures var full := WithPart(Opened(j, key.joinId, key.partCount), key.partNum, qid, eid);
      PartsHold(exports, full.parts, NamesIn(j, key, names)[key.partNum := Who(exports, eid)])
  {
    var open := Opened(j, key.joinId, key.partCount);
    NamesPart(exports, open.parts, NamesIn(j, key, names), key.partNum, qid, eid);
  }

  /** Every part has a name recorded, or room for one. */
  ghost predicate NamesFit(joins: seq<JoinSlot>, named: seq<seq<Option<nat>>>)
    ensures NamesFit(joins, named) ==> |named| == |joins|
  {
    |named| == |joins| && forall i | 0 <= i < |joins| && joins[i].Joining? :: |named[i]| == |joins[i].parts|
  }

  lemma FitAfter(j: JoinSlot, n: nat, qid: nat, eid: int, k: nat, joins: seq<JoinSlot>, joins': seq<JoinSlot>,
      exports: seq<Export>, exports': seq<Export>, log: seq<Sent>, log': seq<Sent>, named: seq<seq<Option<nat>>>,
      names: seq<Option<nat>>)
    requires j.Joining? && n < |j.parts| && k < |joins| && NamesFit(joins, named) && |names| == |j.parts|
    requires Joined(j, n, qid, eid, k, joins, joins', exports, exports', log, log')
    ensures NamesFit(joins', named[k := names])
  {
    hide Same, Complete, Answers, Bumped;
  }

  // ---- when a join tells the truth ----------------------------------------------------------

  /** All parts but number n are in. */
  ghost predicate OthersIn(parts: seq<JoinPart>, n: nat) {
    n < |parts| && forall j | 0 <= j < |parts| && j != n :: parts[j].Part?
  }

  /** With target eid for part n, the join succeeds just if all parts named one server. */
  ghost predicate Right(exports: seq<Export>, parts: seq<JoinPart>, names: seq<Option<nat>>, n: nat, qid: nat,
      eid: int)
    requires OthersIn(parts, n) && |names| == |parts|
  {
    Same(parts[n := Part(qid, eid)]) <==> OneServer(names[n := Who(exports, eid)])
  }

  ghost predicate AllAt(parts: seq<JoinPart>, n: nat, i: int)
    requires OthersIn(parts, n)
  {
    forall j | 0 <= j < |parts| && j != n :: parts[j].eid == i
  }

  ghost predicate AllNamed(names: seq<Option<nat>>, n: nat, server: nat) {
    forall j | 0 <= j < |names| && j != n :: names[j] == Some(server)
  }

  /** For export i, comparing what was recorded comes to the same as comparing what was named. */
  ghost predicate Tells(exports: seq<Export>, parts: seq<JoinPart>, names: seq<Option<nat>>, n: nat, i: int)
    requires OthersIn(parts, n)
  {
    Hosts(exports, i) ==> (AllAt(parts, n, i) <==> AllNamed(names, n, exports[i].server))
  }

  lemma RightIf(exports: seq<Export>, parts: seq<JoinPart>, names: seq<Option<nat>>, n: nat, qid: nat, eid: int)
    requires OthersIn(parts, n) && |names| == |parts| && (eid == -1 || Hosts(exports, eid))
    ensures Right(exports, parts, names, n, qid, eid) <==> Tells(exports, parts, names, n, eid)
  {
    var full, all := parts[n := Part(qid, eid)], names[n := Who(exports, eid)];
    if eid != -1 {
      OneExport(parts, n, qid, eid);
      OneName(names, n, exports[eid].server);
    } else {
      assert full[n].eid == -1 && all[n] == None;
    }
  }

  lemma OneExport(parts: seq<JoinPart>, n: nat, qid: nat, eid: int)
    requires OthersIn(parts, n) && eid >= 0
    ensures Same(parts[n := Part(qid, eid)]) <==> AllAt(parts, n, eid)
  {
    var full := parts[n := Part(qid, eid)];
    assert full[n].eid == eid && forall j | 0 <= j < |parts| && j != n :: full[j] == parts[j];
    if Same(full) {
      assert full[n].eid == full[0].eid;
      forall j | 0 <= j < |parts| && j != n ensures parts[j].eid == eid {
        assert full[j].eid == full[0].eid;
      }
    }
  }

  lemma OneName(names: seq<Option<nat>>, n: nat, server: nat)
    requires n < |names|
    ensures OneServer(names[n := Some(server)]) <==> AllNamed(names, n, server)
  {
    var all := names[n := Some(server)];
    assert all[n] == Some(server) && forall j | 0 <= j < |names| && j != n :: all[j] == names[j];
    if OneServer(all) {
      assert all[n] == all[0];
      forall j | 0 <= j < |names| && j != n ensures names[j] == Some(server) {
        assert all[j] == all[0];
      }
    }
  }

  /**
   The exact law of joins, to be checked before the last part comes: whatever it targets, the join succeeds
   just if all parts named one server, if and only if for every export in use it comes to the same whether
   recorded exports or named servers are compared.
   */
  lemma JoinTellsIff(exports: seq<Export>, parts: seq<JoinPart>, names: seq<Option<nat>>, n: nat, qid: nat)
    requires OthersIn(parts, n) && |names| == |parts|
    ensures (forall target :: Right(exports, parts, names, n, qid, Resolve(exports, target)))
      <==> forall i :: Tells(exports, parts, names, n, i)
  {
    hide Right, Tells;
    forall target
      ensures Right(exports, parts, names, n, qid, Resolve(exports, target))
        <==> Tells(exports, parts, names, n, Resolve(exports, target))
    {
      RightIf(exports, parts, names, n, qid, Resolve(exports, target));
    }
    if forall target :: Right(exports, parts, names, n, qid, Resolve(exports, target)) {
      forall i ensures Tells(exports, parts, names, n, i) {
        Reached(exports, parts, names, n, qid, i);
      }
    }
  }

  /** Every export in use is some target. */
  lemma Reached(exports: seq<Export>, parts: seq<JoinPart>, names: seq<Option<nat>>, n: nat, qid: nat, i: int)
    requires OthersIn(parts, n) && |names| == |parts|
    requires forall target :: Right(exports, parts, names, n, qid, Resolve(exports, target))
    ensures Tells(exports, parts, names, n, i)
  {
    hide Right;
    if Hosts(exports, i) {
      assert Resolve(exports, Imported(i)) == i;
      RightIf(exports, parts, names, n, qid, i);
    }
  }

  /** While recorded exports name what they did, joins tell the truth. */
  lemma HeldTells(exports: seq<Export>, parts: seq<JoinPart>, names: seq<Option<nat>>, n: nat, i: int)
    requires ExportTable(exports) && OthersIn(parts, n) && |names| == |parts|
    requires forall j | 0 <= j < |parts| && j != n :: Names(exports, parts[j].eid, names[j])
    ensures Tells(exports, parts, names, n, i)
  {
  }

  lemma OpenedTable(joins: seq<JoinSlot>, k: nat, key: JoinKey)
    requires JoinTable(joins) && PlaceFor(joins, k, key) && KeyOk(key)
    ensures var joins' := joins[k := Opened(joins[k], key.joinId, key.partCount)];
      && JoinTable(joins') && Bag(JoinQids, joins') == Bag(JoinQids, joins)
      && joins'[k].joinId == key.joinId && |joins'[k].parts| == key.partCount
  {
    var j' := Opened(joins[k], key.joinId, key.partCount);
    if joins[k].Unused? {
      BagEmpty(PartQid, j'.parts);
    }
    SameBag(JoinQids, joins, k, j');
  }

  lemma OpenFor(joins: seq<JoinSlot>, k: nat, key: JoinKey)
    requires PlaceFor(joins, k, key)
    ensures k < |joins|
    ensures var open := Opened(joins[k], key.joinId, key.partCount); open.Joining? && |open.parts| == key.partCount
  {
  }

  lemma PartIn(j: JoinSlot, n: nat, qid: nat, eid: int)
    requires SlotOk(j) && j.Joining? && n < |j.parts| && j.parts[n].Missing?
    ensures SlotOk(WithPart(j, n, qid, eid))
    ensures JoinQids(WithPart(j, n, qid, eid)) == JoinQids(j) + multiset{qid}
  {
    BagUpdate(PartQid, j.parts, n, Part(qid, eid));
    hide Bag;
    assert JoinQids(WithPart(j, n, qid, eid)) + PartQid(j.parts[n]) == JoinQids(WithPart(j, n, qid, eid));
  }

  lemma PartInTable(joins: seq<JoinSlot>, k: nat, n: nat, qid: nat, eid: int)
    requires JoinTable(joins) && k < |joins| && joins[k].Joining?
    requires n < |joins[k].parts| && joins[k].parts[n].Missing?
    ensures JoinTable(joins[k := WithPart(joins[k], n, qid, eid)]) && SlotOk(WithPart(joins[k], n, qid, eid))
    ensures Bag(JoinQids, joins[k := WithPart(joins[k], n, qid, eid)]) == Bag(JoinQids, joins) + multiset{qid}
  {
    hide Bag, JoinQids;
    var j, j' := joins[k], WithPart(joins[k], n, qid, eid);
    PartIn(j, n, qid, eid);
    TableKept(joins, k, j');
    hide SlotOk, JoinTable;
    BagUpdate(JoinQids, joins, k, j');
    OneMore(Bag(JoinQids, joins[k := j']), Bag(JoinQids, joins), JoinQids(j), multiset{qid});
  }

  lemma OneMore(after: multiset<nat>, before: multiset<nat>, slot: multiset<nat>, part: multiset<nat>)
    requires after + slot == before + (slot + part)
    ensures after == before + part
  {
    assert after == (after + slot) - slot;
  }

  /** A join whose parts are all counted has them all. */
  lemma AllIn(j: JoinSlot)
    requires SlotOk(j) && j.Joining? && !Unfinished(j)
    ensures Complete(j.parts) && j.nseen == |j.parts|
  {
    BagFull(PartQid, j.parts);
    hide Bag;
    forall i | 0 <= i < |j.parts| ensures j.parts[i].Part? {
      assert |PartQid(j.parts[i])| == 1;
    }
  }

  /**
   What is true of a join that this part finishes: it has told the truth just if comparing what was recorded with
   its target comes to the same as comparing what was named, and it has as long as recorded exports hold.
   */
  ghost predicate Verdict(exports: seq<Export>, open: JoinSlot, known: seq<Option<nat>>, n: nat, qid: nat, eid: int,
      steady: bool)
    requires open.Joining? && |known| == |open.parts| && n < |open.parts|
  {
    !Unfinished(WithPart(open, n, qid, eid)) ==>
      && OthersIn(open.parts, n)
      && (Right(exports, open.parts, known, n, qid, eid) <==> Tells(exports, open.parts, known, n, eid))
      && (steady ==> Right(exports, open.parts, known, n, qid, eid))
  }

  lemma VerdictHolds(exports: seq<Export>, open: JoinSlot, known: seq<Option<nat>>, n: nat, qid: nat, eid: int,
      steady: bool)
    requires open.Joining? && |known| == |open.parts| && n < |open.parts| && (eid == -1 || Hosts(exports, eid))
    requires !Unfinished(WithPart(open, n, qid, eid)) ==> Complete(WithPart(open, n, qid, eid).parts)
    requires ExportTable(exports)
      && (steady ==> PartsHold(exports, WithPart(open, n, qid, eid).parts, known[n := Who(exports, eid)]))
    ensures Verdict(exports, open, known, n, qid, eid, steady)
  {
    hide Right, Tells, Names, Unfinished, ExportTable;
    var full := WithPart(open, n, qid, eid);
    if !Unfinished(full) {
      forall j | 0 <= j < |open.parts| && j != n ensures open.parts[j].Part? && full.parts[j] == open.parts[j] {
        assert full.parts[j].Part?;
      }
      RightIf(exports, open.parts, known, n, qid, eid);
      if steady {
        forall j | 0 <= j < |open.parts| && j != n ensures Names(exports, open.parts[j].eid, known[j]) {
          assert Names(exports, full.parts[j].eid, known[n := Who(exports, eid)][j]);
        }
        HeldTells(exports, open.parts, known, n, eid);
      }
    }
  }

  /** After a part is taken, names still hold. */
  lemma NamesJoined(j: JoinSlot, n: nat, qid: nat, eid: int, k: nat, joins: seq<JoinSlot>, joins': seq<JoinSlot>,
      exports: seq<Export>, exports': seq<Export>, log: seq<Sent>, log': seq<Sent>, named: seq<seq<Option<nat>>>,
      names: seq<Option<nat>>)
    requires j.Joining? && n < |j.parts| && k < |joins|
    requires Joined(j, n, qid, eid, k, joins, joins', exports, exports', log, log') && ExportTable(exports)
    requires NamesHold(exports, joins, named) && PartsHold(exports, WithPart(j, n, qid, eid).parts, names)
    ensures NamesHold(exports', joins', named[k := names])
  {
    hide NamesHold, PartsHold, Bag, ExportTable;
    var full := WithPart(j, n, qid, eid);
    if Unfinished(full) {
      NamesKept(exports, joins, named, k, full, names);
    } else {
      NamesKept(exports, joins, named, k, Unused, names);
      if Same(full.parts) {
        NamesBumped(exports, joins', named[k := names], full.parts[0].eid, exports[full.parts[0].eid].server);
      }
    }
  }

  /** All of this for a part that goes to slot k. */
  lemma NamesStep(key: JoinKey, qid: nat, eid: int, k: nat, joins: seq<JoinSlot>, joins': seq<JoinSlot>,
      exports: seq<Export>, exports': seq<Export>, log: seq<Sent>, log': seq<Sent>, named: seq<seq<Option<nat>>>,
      steady: bool)
    requires KeyOk(key) && PlaceFor(joins, k, key) && (eid == -1 || Hosts(exports, eid)) && ExportTable(exports)
    requires Joined(Opened(joins[k], key.joinId, key.partCount), key.partNum, qid, eid, k, joins, joins', exports,
      exports', log, log') && NamesFit(joins, named) && (steady ==> NamesHold(exports, joins, named))
    ensures joins[k].Joining? ==> |named[k]| == key.partCount
    ensures var known := NamesIn(joins[k], key, named[k]);
      var named' := named[k := known[key.partNum := Who(exports, eid)]];
      && NamesFit(joins', named') && (steady ==> NamesHold(exports', joins', named'))
      && Verdict(exports, Opened(joins[k], key.joinId, key.partCount), known, key.partNum, qid, eid, steady)
  {
    var open, known := Opened(joins[k], key.joinId, key.partCount), NamesIn(joins[k], key, named[k]);
    var names := known[key.partNum := Who(exports, eid)];
    if steady {
      assert joins[k].Joining? ==> PartsHold(exports, joins[k].parts, named[k]);
      NamesTaken(exports, joins[k], key, named[k], qid, eid);
    }
    var full := WithPart(open, key.partNum, qid, eid);
    assert !Unfinished(full) ==> Complete(full.parts);
    hide *;
    if steady {
      NamesJoined(open, key.partNum, qid, eid, k, joins, joins', exports, exports', log, log', named, names);
    }
    FitAfter(open, key.partNum, qid, eid, k, joins, joins', exports, exports', log, log', named, names);
    VerdictHolds(exports, open, known, key.partNum, qid, eid, steady);
  }

  /** A finished join leaves the table, and its questions are answered. */
  lemma JoinLeaves(joins: seq<JoinSlot>, k: nat, log: seq<Sent>, same: bool)
    requires JoinTable(joins) && k < |joins| && joins[k].Joining? && Complete(joins[k].parts)
    ensures JoinTable(joins[k := Unused])
    ensures var answers := Answers(joins[k].joinId, joins[k].parts, same, |joins[k].parts|);
      Bag(AnswerQid, log + answers) + Bag(JoinQids, joins[k := Unused]) == Bag(AnswerQid, log) + Bag(JoinQids, joins)
  {
    hide Bag, SlotOk, Answers;
    var j := joins[k];
    TableKept(joins, k, Unused) by { Unslotted(); }
    hide JoinTable;
    var answers := Answers(j.joinId, j.parts, same, |j.parts|);
    AnswersAsked(j.joinId, j.parts, same, |j.parts|);
    assert j.parts[..|j.parts|] == j.parts;
    BagConcat(AnswerQid, log, answers);
    BagUpdate(JoinQids, joins, k, Unused);
    Answered(Bag(JoinQids, joins[k := Unused]), Bag(JoinQids, joins), JoinQids(j), Bag(AnswerQid, log));
  }

  lemma Unslotted()
    ensures SlotOk(Unused)
  {
  }

  lemma Answered(after: multiset<nat>, before: multiset<nat>, answers: multiset<nat>, log: multiset<nat>)
    requires after + answers == before
    ensures log + answers + after == log + before
  {
    assert log + answers + after == log + (after + answers);
  }

  // ---- handoffs -----------------------------------------------------------------------------

  function NonceOf(p: Provision): multiset<nat> { if p.Vacant? then multiset{} else multiset{p.nonce} }

  /** An Accept that waits for its embargo to be lifted. */
  function PendingOf(p: Provision): multiset<nat> { if p.Embargoed? then multiset{p.acceptId} else multiset{} }

  /** A provision that an Accept with this nonce can claim. */
  predicate HeldUnder(p: Provision, nonce: nat) { p.Held? && p.nonce == nonce }

  /** Slot k is the first such provision, or the end of the table. */
  ghost predicate FirstUnder(provisions: seq<Provision>, nonce: nat, k: nat) {
    && k <= |provisions| && (forall j | 0 <= j < k :: !HeldUnder(provisions[j], nonce))
    && (k < |provisions| ==> HeldUnder(provisions[k], nonce))
  }

  /** An embargo that lifting this Provide question lifts. */
  predicate WaitsOn(p: Provision, provideId: nat) { p.Embargoed? && p.provideId == provideId }

  function Claimed(p: Provision, eid: int, acceptId: nat): Provision
    requires p.Held?
  {
    Embargoed(p.nonce, p.server, eid, p.provideId, acceptId)
  }

  // ---- where capabilities come from ---------------------------------------------------------

  /**
   A run so far: its events, the export table before each of them and at the end, the event that each message sent
   answers, and for every provision the events that made and claimed it.
   */
  datatype Story =
    Story(events: seq<Event>, tables: seq<seq<Export>>, cause: seq<nat>, made: seq<nat>, claimed: seq<nat>)

  /** Event t is a Provide of this server under this nonce. */
  ghost predicate ProvidedAt(s: Story, t: nat, provideId: nat, nonce: nat, server: nat) {
    && t < |s.events| && t < |s.tables|
    && s.events[t].Providing? && s.events[t].qid == provideId && s.events[t].recipient == Some(nonce)
    && exists i :: TargetAt(s.tables[t], s.events[t].target, i) && s.tables[t][i].server == server
  }

  /** An earlier Provide made the provision, and a later embargoed Accept under its nonce claimed it. */
  ghost predicate SlotTold(s: Story, p: Provision, made: nat, claimed: nat) {
    match p
    case Vacant => true
    case Held(nonce, server, _, provideId) => ProvidedAt(s, made, provideId, nonce, server)
    case Embargoed(nonce, server, _, provideId, acceptId) =>
      && ProvidedAt(s, made, provideId, nonce, server)
      && made < claimed < |s.events| && s.events[claimed] == Accepting(acceptId, Some(nonce), true)
  }

  /** The table that event t leaves behind has the server at eid. */
  ghost predicate LeftAt(s: Story, t: nat, eid: int, server: nat) {
    t + 1 < |s.tables| && HostsServer(s.tables[t + 1], eid, server)
  }

  /** A capability under an Accept's own answer: what a Provide has promised under the nonce. */
  ghost predicate GivenAtOnce(s: Story, t: nat, nonce: nat, eid: int) {
    exists made: nat, provideId: nat, server: nat ::
      made < t && ProvidedAt(s, made, provideId, nonce, server) && LeftAt(s, t, eid, server)
  }

  /** A capability that was held back: event t lifts the embargo of the very Provide that promised it. */
  ghost predicate GivenLater(s: Story, t: nat, provideId: nat, acceptId: nat, eid: int, polite: bool) {
    exists made: nat, claimed: nat, nonce: nat, server: nat ::
      && made < claimed < t < |s.events| && ProvidedAt(s, made, provideId, nonce, server)
      && s.events[claimed] == Accepting(acceptId, Some(nonce), true) && (polite ==> LeftAt(s, t, eid, server))
  }

  /** What is sent answers the event's own question, except that lifting an embargo answers the Accept it held back. */
  ghost predicate Explained(s: Story, m: Sent, t: nat, polite: bool) {
    t < |s.events| &&
    match m
    case Exception(qid) =>
      || s.events[t] == Bootstrapping(qid)
      || ((s.events[t].Providing? || s.events[t].Accepting?) && s.events[t].qid == qid)
    case Confirmation(qid) => s.events[t].Providing? && s.events[t].qid == qid
    case JoinResult(_, _, _, _) => s.events[t].JoiningPart?
    case Capability(qid, eid) =>
      match s.events[t]
      case Bootstrapping(id) => id == qid
      case Accepting(id, Some(nonce), false) => id == qid && GivenAtOnce(s, t, nonce, eid)
      case Lifting(provideId) => GivenLater(s, t, provideId, qid, eid, polite)
      case _ => false
  }

  /** The story is that of the tables and of everything that was sent. */
  ghost predicate Told(s: Story, exports: seq<Export>, provisions: seq<Provision>, log: seq<Sent>, polite: bool)
    ensures Told(s, exports, provisions, log, polite) ==>
      |s.made| == |s.claimed| == |provisions| && |s.cause| == |log|
    ensures Told(s, exports, provisions, log, polite) ==>
      forall x | 0 <= x < |log| :: Explained(s, log[x], s.cause[x], polite)
  {
    && |s.tables| == |s.events| + 1 && s.tables[|s.events|] == exports
    && |s.made| == |s.claimed| == |provisions| && |s.cause| == |log|
    && (forall k | 0 <= k < |provisions| :: SlotTold(s, provisions[k], s.made[k], s.claimed[k]))
    && forall x | 0 <= x < |log| :: Explained(s, log[x], s.cause[x], polite)
  }

  /** One event more, with the table it leaves and the number of messages it sends. */
  function Extended(s: Story, e: Event, exports: seq<Export>, sent: nat): (s': Story)
    ensures s'.events == s.events + [e] && s'.tables == s.tables + [exports]
    ensures s'.made == s.made && s'.claimed == s.claimed && |s'.cause| == |s.cause| + sent
  {
    Story(s.events + [e], s.tables + [exports], s.cause + seq(sent, _ => |s.events|), s.made, s.claimed)
  }

  lemma ProvidedStill(s: Story, s': Story, t: nat, provideId: nat, nonce: nat, server: nat)
    requires ProvidedAt(s, t, provideId, nonce, server) && s.events <= s'.events && s.tables <= s'.tables
    ensures ProvidedAt(s', t, provideId, nonce, server)
  {
  }

  lemma SlotStill(s: Story, s': Story, p: Provision, made: nat, claimed: nat)
    requires SlotTold(s, p, made, claimed) && s.events <= s'.events && s.tables <= s'.tables
    ensures SlotTold(s', p, made, claimed)
  {
    hide ProvidedAt;
    if !p.Vacant? {
      ProvidedStill(s, s', made, p.provideId, p.nonce, p.server);
    }
  }

  lemma ExplainedStill(s: Story, s': Story, m: Sent, t: nat, polite: bool, polite': bool)
    requires Explained(s, m, t, polite) && s.events <= s'.events && s.tables <= s'.tables && (polite' ==> polite)
    ensures Explained(s', m, t, polite')
  {
    hide ProvidedAt, LeftAt;
    if m.Capability? && s.events[t].Accepting? {
      var nonce := s.events[t].nonce.value;
      var made: nat, provideId: nat, server: nat :|
        && made < t && ProvidedAt(s, made, provideId, nonce, server) && LeftAt(s, t, m.eid, server);
      ProvidedStill(s, s', made, provideId, nonce, server);
      LeftStill(s, s', t, m.eid, server);
    } else if m.Capability? && s.events[t].Lifting? {
      var provideId := s.events[t].provideId;
      var made: nat, claimed: nat, nonce: nat, server: nat :|
        && made < claimed < t && ProvidedAt(s, made, provideId, nonce, server)
        && s.events[claimed] == Accepting(m.qid, Some(nonce), true) && (polite ==> LeftAt(s, t, m.eid, server));
      ProvidedStill(s, s', made, provideId, nonce, server);
      if polite' {
        LeftStill(s, s', t, m.eid, server);
      }
    }
  }

  lemma LeftStill(s: Story, s': Story, t: nat, eid: int, server: nat)
    requires LeftAt(s, t, eid, server) && s.tables <= s'.tables
    ensures LeftAt(s', t, eid, server)
  {
  }

  /** The story goes on when what is sent is explained and what is new in the provisions is told. */
  lemma StoryGoesOn(s: Story, s': Story, exports: seq<Export>, exports': seq<Export>, provisions: seq<Provision>,
      provisions': seq<Provision>, log: seq<Sent>, log': seq<Sent>, polite: bool, polite': bool, e: Event, k: nat)
    requires Told(s, exports, provisions, log, polite) && (polite' ==> polite) && log <= log'
    requires Extended(s, e, exports', |log'| - |log|) == s'.(made := s.made, claimed := s.claimed)
    requires |s'.made| == |s'.claimed| == |provisions'| == |provisions|
    requires forall j | 0 <= j < |provisions| && j != k ::
      provisions'[j] == provisions[j] && s'.made[j] == s.made[j] && s'.claimed[j] == s.claimed[j]
    requires k < |provisions| ==> SlotTold(s', provisions'[k], s'.made[k], s'.claimed[k])
    requires forall x | |log| <= x < |log'| :: Explained(s', log'[x], |s.events|, polite')
    ensures Told(s', exports', provisions', log', polite')
  {
    hide SlotTold, Explained;
    forall j | 0 <= j < |provisions| && j != k ensures SlotTold(s', provisions'[j], s'.made[j], s'.claimed[j]) {
      SlotStill(s, s', provisions[j], s.made[j], s.claimed[j]);
    }
    forall x | 0 <= x < |log| ensures Explained(s', log'[x], s'.cause[x], polite') {
      ExplainedStill(s, s', log[x], s.cause[x], polite, polite');
    }
  }

  /** The same where the event has also made or claimed provision k. */
  function Next(s: Story, e: Event, exports: seq<Export>, sent: nat, k: nat, made: nat, claimed: nat): (s': Story)
    requires |s.made| == |s.claimed|
  {
    var s' := Extended(s, e, exports, sent);
    if k < |s.made| then s'.(made := s.made[k := made], claimed := s.claimed[k := claimed]) else s'
  }

  /** An event that touches no provision. */
  lemma AsideTold(s: Story, exports: seq<Export>, exports': seq<Export>, provisions: seq<Provision>, log: seq<Sent>,
      log': seq<Sent>, polite: bool, polite': bool, e: Event)
    requires Told(s, exports, provisions, log, polite) && (polite' ==> polite) && log <= log'
    requires forall x | |log| <= x < |log'| ::
      || (e.JoiningPart? && log'[x].JoinResult?)
      || (e.Bootstrapping? && (log'[x].Exception? || log'[x].Capability?) && log'[x].qid == e.qid)
    ensures Told(Extended(s, e, exports', |log'| - |log|), exports', provisions, log', polite')
  {
    var s' := Extended(s, e, exports', |log'| - |log|);
    forall x | |log| <= x < |log'| ensures Explained(s', log'[x], |s.events|, polite') {
    }
    hide Told, Explained;
    StoryGoesOn(s, s', exports, exports', provisions, provisions, log, log', polite, polite', e, |provisions|);
  }

  lemma ProvideTold(s: Story, exports: seq<Export>, exports': seq<Export>, provisions: seq<Provision>, log: seq<Sent>,
      polite: bool, e: Event, k: nat, p: Provision)
    requires Told(s, exports, provisions, log, polite) && e.Providing? && e.recipient.Some? && k < |provisions|
    requires p.Held? && p.nonce == e.recipient.value && p.provideId == e.qid && TargetAt(exports, e.target, p.eid)
      && p.server == exports[p.eid].server
    ensures Told(Next(s, e, exports', 1, k, |s.events|, 0), exports', provisions[k := p], log + [Confirmation(e.qid)],
      polite)
  {
    var s' := Next(s, e, exports', 1, k, |s.events|, 0);
    assert ProvidedAt(s', |s.events|, p.provideId, p.nonce, p.server) by {
      assert TargetAt(s'.tables[|s.events|], e.target, p.eid);
    }
    hide ProvidedAt, TargetAt;
    StoryGoesOn(s, s', exports, exports', provisions, provisions[k := p], log, log + [Confirmation(e.qid)], polite,
      polite, e, k);
  }

  /** A Provide or Accept that fails. */
  lemma FailureTold(s: Story, exports: seq<Export>, provisions: seq<Provision>, log: seq<Sent>, polite: bool, e: Event)
    requires Told(s, exports, provisions, log, polite) && (e.Providing? || e.Accepting?)
    ensures Told(Extended(s, e, exports, 1), exports, provisions, log + [Exception(e.qid)], polite)
  {
    hide SlotTold;
    StoryGoesOn(s, Extended(s, e, exports, 1), exports, exports, provisions, provisions, log, log + [Exception(e.qid)],
      polite, polite, e, |provisions|);
  }

  lemma ClaimTold(s: Story, exports: seq<Export>, exports': seq<Export>, provisions: seq<Provision>, log: seq<Sent>,
      polite: bool, e: Event, k: nat, eid: int)
    requires Told(s, exports, provisions, log, polite) && e.Accepting? && e.nonce.Some? && e.embargo
    requires k < |provisions| && provisions[k].Held? && provisions[k].nonce == e.nonce.value
    ensures var p := provisions[k];
      Told(Next(s, e, exports', 0, k, s.made[k], |s.events|), exports',
        provisions[k := Embargoed(p.nonce, p.server, eid, p.provideId, e.qid)], log, polite)
  {
    var p := provisions[k];
    var s' := Next(s, e, exports', 0, k, s.made[k], |s.events|);
    ProvidedStill(s, s', s.made[k], p.provideId, p.nonce, p.server);
    hide ProvidedAt;
    StoryGoesOn(s, s', exports, exports', provisions,
      provisions[k := Embargoed(p.nonce, p.server, eid, p.provideId, e.qid)], log, log, polite, polite, e, k);
  }

  lemma HandoverTold(s: Story, exports: seq<Export>, exports': seq<Export>, provisions: seq<Provision>, log: seq<Sent>,
      polite: bool, e: Event, k: nat, eid: int)
    requires Told(s, exports, provisions, log, polite) && e.Accepting? && e.nonce.Some? && !e.embargo
    requires k < |provisions| && provisions[k].Held? && provisions[k].nonce == e.nonce.value
    requires HostsServer(exports', eid, provisions[k].server)
    ensures Told(Extended(s, e, exports', 1), exports', provisions[k := Vacant], log + [Capability(e.qid, eid)], polite)
  {
    var p := provisions[k];
    var s' := Extended(s, e, exports', 1);
    ProvidedStill(s, s', s.made[k], p.provideId, p.nonce, p.server);
    assert LeftAt(s', |s.events|, eid, p.server);
    hide ProvidedAt, LeftAt;
    StoryGoesOn(s, s', exports, exports', provisions, provisions[k := Vacant], log, log + [Capability(e.qid, eid)],
      polite, polite, e, k);
  }

  lemma LiftTold(s: Story, exports: seq<Export>, provisions: seq<Provision>, log: seq<Sent>, polite: bool, e: Event,
      k: nat)
    requires Told(s, exports, provisions, log, polite) && e.Lifting? && k < |provisions|
    requires provisions[k].Embargoed? && provisions[k].provideId == e.provideId
    requires polite ==> HostsServer(exports, provisions[k].eid, provisions[k].server)
    ensures Told(Extended(s, e, exports, 1), exports, provisions[k := Vacant],
      log + [Capability(provisions[k].acceptId, provisions[k].eid)], polite)
  {
    var p := provisions[k];
    var s' := Extended(s, e, exports, 1);
    ProvidedStill(s, s', s.made[k], p.provideId, p.nonce, p.server);
    assert polite ==> LeftAt(s', |s.events|, p.eid, p.server);
    hide ProvidedAt, LeftAt;
    StoryGoesOn(s, s', exports, exports, provisions, provisions[k := Vacant], log,
      log + [Capability(p.acceptId, p.eid)], polite, polite, e, k);
  }

  // ---- reference counts ---------------------------------------------------------------------

  /** capn_rpc_export found, or made, slot i. */
  function Bumped(exports: seq<Export>, i: nat, server: nat): seq<Export>
    requires i < |exports|
  {
    exports[i := Live(if exports[i].Live? then exports[i].refcount + 1 else 1, server)]
  }

  /** Slot i is the one for this server: it names it already, or no slot does and this is the first free one. */
  ghost predicate SlotFor(exports: seq<Export>, i: nat, server: nat) {
    && i < |exports|
    && if exports[i].Live? then exports[i].server == server
       else
         && (forall j | 0 <= j < i :: exports[j].Live?)
         && forall j | 0 <= j < |exports| && exports[j].Live? :: exports[j].server != server
  }

  /** The table is full of other servers. */
  ghost predicate NoSlotFor(exports: seq<Export>, server: nat) {
    forall j | 0 <= j < |exports| :: exports[j].Live? && exports[j].server != server
  }

  lemma BumpedTable(exports: seq<Export>, i: nat, server: nat)
    requires ExportTable(exports) && SlotFor(exports, i, server)
    ensures ExportTable(Bumped(exports, i, server))
  {
  }

  function ToPeer(l: Ledger, i: nat, server: nat): Ledger
    requires i < |l.peer| && i < |l.given|
  {
    l.(peer := l.peer[i := l.peer[i] + 1], given := l.given[i := server])
  }

  function ToOther(l: Ledger, i: nat): Ledger
    requires i < |l.other|
  {
    l.(other := l.other[i := l.other[i] + 1])
  }

  /** A reference more, and its holder. */
  lemma PeerGains(exports: seq<Export>, provisions: seq<Provision>, l: Ledger, i: nat, server: nat)
    requires Accounted(exports, provisions, l) && SlotFor(exports, i, server)
    ensures Accounted(Bumped(exports, i, server), provisions, ToPeer(l, i, server))
  {
    var exports', l' := Bumped(exports, i, server), ToPeer(l, i, server);
    forall j | 0 <= j < |exports| ensures Balanced(exports', provisions, l', j) {
      assert Balanced(exports, provisions, l, j);
    }
  }

  lemma OtherGains(exports: seq<Export>, provisions: seq<Provision>, l: Ledger, i: nat, server: nat)
    requires Accounted(exports, provisions, l) && SlotFor(exports, i, server)
    ensures Accounted(Bumped(exports, i, server), provisions, ToOther(l, i))
  {
    var exports', l' := Bumped(exports, i, server), ToOther(l, i);
    forall j | 0 <= j < |exports| ensures Balanced(exports', provisions, l', j) {
      assert Balanced(exports, provisions, l, j);
    }
  }

  lemma ClaimGains(exports: seq<Export>, provisions: seq<Provision>, l: Ledger, i: nat, server: nat, k: nat,
      p: Provision)
    requires Accounted(exports, provisions, l) && SlotFor(exports, i, server)
    requires k < |provisions| && !provisions[k].Embargoed? && p.Embargoed? && p.eid == i
    ensures Accounted(Bumped(exports, i, server), provisions[k := p], l)
  {
    var exports', provisions' := Bumped(exports, i, server), provisions[k := p];
    hide Bag;
    ClaimCounted(provisions, k, p);
    var claims, claims' := Bag(ClaimOf, provisions), Bag(ClaimOf, provisions');
    hide ClaimOf;
    forall j | 0 <= j < |exports| ensures Balanced(exports', provisions', l, j) {
      assert Balanced(exports, provisions, l, j);
      assert claims'[j] == claims[j] + if j == i then 1 else 0;
    }
  }

  lemma ClaimCounted(provisions: seq<Provision>, k: nat, p: Provision)
    requires k < |provisions| && !provisions[k].Embargoed? && p.Embargoed?
    ensures Bag(ClaimOf, provisions[k := p]) == Bag(ClaimOf, provisions) + multiset{p.eid}
  {
    BagUpdate(ClaimOf, provisions, k, p);
    hide Bag;
    assert Bag(ClaimOf, provisions[k := p]) + ClaimOf(provisions[k]) == Bag(ClaimOf, provisions[k := p]);
  }

  lemma ClaimHosted(exports: seq<Export>, provisions: seq<Provision>, i: nat, server: nat, k: nat, p: Provision)
    requires ClaimsHosted(exports, provisions) && SlotFor(exports, i, server)
    requires k < |provisions| && p.Embargoed? && p.eid == i && p.server == server
    ensures ClaimsHosted(Bumped(exports, i, server), provisions[k := p])
  {
    HostedStay(exports, provisions, i, server);
  }

  /** A claim becomes a reference of the peer's. */
  lemma ClaimPasses(exports: seq<Export>, provisions: seq<Provision>, l: Ledger, k: nat)
    requires Accounted(exports, provisions, l) && ClaimsHosted(exports, provisions)
    requires k < |provisions| && provisions[k].Embargoed?
    ensures HostsServer(exports, provisions[k].eid, provisions[k].server)
    ensures Accounted(exports, provisions[k := Vacant], ToPeer(l, provisions[k].eid, provisions[k].server))
    ensures ClaimsHosted(exports, provisions[k := Vacant])
  {
    var i, server := provisions[k].eid, provisions[k].server;
    assert Hosts(exports, i) && exports[i].server == server;
    var provisions', l' := provisions[k := Vacant], ToPeer(l, i, server);
    BagUpdate(ClaimOf, provisions, k, Vacant);
    assert Bag(ClaimOf, provisions) == Bag(ClaimOf, provisions') + multiset{i};
    forall j | 0 <= j < |exports| ensures Balanced(exports, provisions', l', j) {
      assert Balanced(exports, provisions, l, j);
    }
  }

  /** Changing a provision that is not embargoed into another one that is not changes no count. */
  lemma ClaimsStay(exports: seq<Export>, provisions: seq<Provision>, l: Ledger, k: nat, p: Provision)
    requires k < |provisions| && !provisions[k].Embargoed? && !p.Embargoed?
    ensures Accounted(exports, provisions, l) ==> Accounted(exports, provisions[k := p], l)
    ensures ClaimsHosted(exports, provisions) ==> ClaimsHosted(exports, provisions[k := p])
  {
    var provisions' := provisions[k := p];
    SameBag(ClaimOf, provisions, k, p);
    hide Bag;
    if Accounted(exports, provisions, l) {
      forall j | 0 <= j < |exports| ensures Balanced(exports, provisions', l, j) {
        assert Balanced(exports, provisions, l, j);
      }
    }
  }

  lemma HostedStay(exports: seq<Export>, provisions: seq<Provision>, i: nat, server: nat)
    requires ClaimsHosted(exports, provisions) && SlotFor(exports, i, server)
    ensures ClaimsHosted(Bumped(exports, i, server), provisions)
  {
  }

  const INT_LIMIT := 0x8000_0000

  /** The cast of a 32-bit reference count to an int. */
  function ToInt(count: nat): (n: int)
    requires count < 2 * INT_LIMIT
    ensures -INT_LIMIT <= n < INT_LIMIT && (count - n) % (2 * INT_LIMIT) == 0
  {
    if count < INT_LIMIT then count else count - 2 * INT_LIMIT
  }

  function Returned(l: Ledger, i: nat, count: nat): Ledger
    requires i < |l.peer|
  {
    l.(peer := l.peer[i := if count <= l.peer[i] then l.peer[i] - count else 0])
  }

  function Released(exports: seq<Export>, i: nat, count: nat): seq<Export>
    requires i < |exports| && exports[i].Live? && count < 2 * INT_LIMIT
  {
    var left := exports[i].refcount - ToInt(count);
    exports[i := if left <= 0 then Free else Live(left, exports[i].server)]
  }

  lemma ReleasedTable(exports: seq<Export>, i: nat, count: nat)
    requires ExportTable(exports) && Hosts(exports, i) && count < 2 * INT_LIMIT
    ensures ExportTable(Released(exports, i, count))
  {
  }

  /** A peer that gives back what it has frees nothing that anybody else holds. */
  lemma PeerReleases(exports: seq<Export>, provisions: seq<Provision>, l: Ledger, i: nat, count: nat)
    requires Accounted(exports, provisions, l) && ClaimsHosted(exports, provisions)
    requires i < |exports| && exports[i].Live? && count <= l.peer[i] && count < INT_LIMIT
    ensures Accounted(Released(exports, i, count), provisions, Returned(l, i, count))
    ensures ClaimsHosted(Released(exports, i, count), provisions)
    ensures Released(exports, i, count)[i].Free? ==>
      l.peer[i] == count && Bag(ClaimOf, provisions)[i] == 0 && l.other[i] == 0
  {
    var exports', l' := Released(exports, i, count), Returned(l, i, count);
    assert Balanced(exports, provisions, l, i);
    forall j | 0 <= j < |exports| ensures Balanced(exports', provisions, l', j) {
      assert Balanced(exports, provisions, l, j);
    }
    forall k | 0 <= k < |provisions| && provisions[k].Embargoed?
      ensures HostsServer(exports', provisions[k].eid, provisions[k].server)
    {
      BagHas(ClaimOf, provisions, k);
      assert Bag(ClaimOf, provisions)[provisions[k].eid] >= 1;
      assert HostsServer(exports, provisions[k].eid, provisions[k].server);
      assert Balanced(exports', provisions, l', provisions[k].eid);
    }
  }

  lemma AllFree(exports: seq<Export>, provisions: seq<Provision>, l: Ledger)
    requires |exports| == MAX_EXPORTS && forall i | 0 <= i < |exports| :: exports[i] == Free
    requires forall i | 0 <= i < |provisions| :: provisions[i] == Vacant
    requires |l.peer| == |l.other| == |l.given| == MAX_EXPORTS
    requires forall i | 0 <= i < MAX_EXPORTS :: l.peer[i] == l.other[i] == 0
    ensures ExportTable(exports) && Accounted(exports, provisions, l) && ClaimsHosted(exports, provisions)
    ensures Bag(NonceOf, provisions) == Bag(PendingOf, provisions) == multiset{}
  {
    BagEmpty(ClaimOf, provisions);
    BagEmpty(NonceOf, provisions);
    BagEmpty(PendingOf, provisions);
    hide Bag;
  }

  lemma AllUnused(joins: seq<JoinSlot>)
    requires |joins| == MAX_JOINS && forall i | 0 <= i < |joins| :: joins[i] == Unused
    ensures JoinTable(joins) && Bag(JoinQids, joins) == multiset{}
  {
    BagEmpty(JoinQids, joins);
  }

  /** A provision that is made, and the reference it holds. */
  lemma ProvisionMade(exports: seq<Export>, provisions: seq<Provision>, l: Ledger, i: nat, k: nat, p: Provision)
    requires Accounted(exports, provisions, l) && ClaimsHosted(exports, provisions) && Hosts(exports, i)
    requires k < |provisions| && provisions[k].Vacant? && p.Held?
    ensures Accounted(Bumped(exports, i, exports[i].server), provisions[k := p], ToOther(l, i))
    ensures ClaimsHosted(Bumped(exports, i, exports[i].server), provisions[k := p])
  {
    hide Accounted, ClaimsHosted;
    var server := exports[i].server;
    OtherGains(exports, provisions, l, i, server);
    HostedStay(exports, provisions, i, server);
    ClaimsStay(Bumped(exports, i, server), provisions, ToOther(l, i), k, p);
  }

  lemma HoldsMore(provisions: seq<Provision>, k: nat, p: Provision)
    requires k < |provisions| && provisions[k].Vacant? && p.Held?
    ensures Bag(NonceOf, provisions[k := p]) == Bag(NonceOf, provisions) + multiset{p.nonce}
    ensures Bag(PendingOf, provisions[k := p]) == Bag(PendingOf, provisions)
  {
    BagUpdate(NonceOf, provisions, k, p);
    SameBag(PendingOf, provisions, k, p);
    hide Bag;
    assert Bag(NonceOf, provisions[k := p]) + NonceOf(provisions[k]) == Bag(NonceOf, provisions[k := p]);
  }

  /** A claim that waits is still counted among the provisions. */
  lemma ClaimWaits(provisions: seq<Provision>, k: nat, p: Provision)
    requires k < |provisions| && provisions[k].Held? && p.Embargoed? && p.nonce == provisions[k].nonce
    ensures Bag(NonceOf, provisions[k := p]) == Bag(NonceOf, provisions)
    ensures Bag(PendingOf, provisions[k := p]) == Bag(PendingOf, provisions) + multiset{p.acceptId}
  {
    SameBag(NonceOf, provisions, k, p);
    BagUpdate(PendingOf, provisions, k, p);
    hide Bag;
    assert Bag(PendingOf, provisions[k := p]) + PendingOf(provisions[k]) == Bag(PendingOf, provisions[k := p]);
  }

  lemma HandedOver(provisions: seq<Provision>, k: nat)
    requires k < |provisions| && provisions[k].Held?
    ensures Bag(NonceOf, provisions) == Bag(NonceOf, provisions[k := Vacant]) + multiset{provisions[k].nonce}
    ensures Bag(PendingOf, provisions[k := Vacant]) == Bag(PendingOf, provisions)
  {
    BagUpdate(NonceOf, provisions, k, Vacant);
    SameBag(PendingOf, provisions, k, Vacant);
    hide Bag;
    assert Bag(NonceOf, provisions) + NonceOf(Vacant) == Bag(NonceOf, provisions);
  }

  lemma Lifted(provisions: seq<Provision>, k: nat)
    requires k < |provisions| && provisions[k].Embargoed?
    ensures Bag(NonceOf, provisions) == Bag(NonceOf, provisions[k := Vacant]) + multiset{provisions[k].nonce}
    ensures Bag(PendingOf, provisions) == Bag(PendingOf, provisions[k := Vacant]) + multiset{provisions[k].acceptId}
  {
    BagUpdate(NonceOf, provisions, k, Vacant);
    BagUpdate(PendingOf, provisions, k, Vacant);
    hide Bag;
    assert Bag(NonceOf, provisions) + NonceOf(Vacant) == Bag(NonceOf, provisions);
    assert Bag(PendingOf, provisions) + PendingOf(Vacant) == Bag(PendingOf, provisions);
  }

  /** What is made is held, waits or is handed over; who waits is still told or has been. */
  ghost predicate Conserved(provisions: seq<Provision>, provided: multiset<nat>, accepted: multiset<nat>,
      embargoed: multiset<nat>, lifted: multiset<nat>)
    ensures Conserved(provisions, provided, accepted, embargoed, lifted) ==> |provisions| == MAX_PROVISIONS
  {
    && |provisions| == MAX_PROVISIONS
    && (forall k | 0 <= k < |provisions| && !provisions[k].Vacant? :: 0 <= provisions[k].eid < MAX_EXPORTS)
    && provided == Bag(NonceOf, provisions) + accepted
    && embargoed == Bag(PendingOf, provisions) + lifted
  }

  /** The reference counts are right, as long as the peer is polite. */
  ghost predicate Counted(exports: seq<Export>, provisions: seq<Provision>, l: Ledger, polite: bool) {
    && ExportTable(exports) && |l.peer| == |l.other| == |l.given| == MAX_EXPORTS
    && (polite ==> Accounted(exports, provisions, l) && ClaimsHosted(exports, provisions))
  }

  lemma LiftCounts(exports: seq<Export>, provisions: seq<Provision>, l: Ledger, polite: bool, k: nat)
    requires Counted(exports, provisions, l, polite)
    requires k < |provisions| && provisions[k].Embargoed? && 0 <= provisions[k].eid < MAX_EXPORTS
    ensures Counted(exports, provisions[k := Vacant], ToPeer(l, provisions[k].eid, provisions[k].server), polite)
    ensures polite ==> HostsServer(exports, provisions[k].eid, provisions[k].server)
  {
    hide Accounted, ClaimsHosted, ExportTable;
    if polite {
      ClaimPasses(exports, provisions, l, k);
    }
  }

  lemma LiftConserves(provisions: seq<Provision>, provided: multiset<nat>, accepted: multiset<nat>,
      embargoed: multiset<nat>, lifted: multiset<nat>, k: nat)
    requires Conserved(provisions, provided, accepted, embargoed, lifted)
    requires k < |provisions| && provisions[k].Embargoed?
    ensures var p := provisions[k];
      Conserved(provisions[k := Vacant], provided, accepted + multiset{p.nonce}, embargoed,
        lifted + multiset{p.acceptId})
  {
    var p, provisions' := provisions[k], provisions[k := Vacant];
    Lifted(provisions, k);
    Shifted(provided, Bag(NonceOf, provisions), Bag(NonceOf, provisions'), accepted, multiset{p.nonce});
    Shifted(embargoed, Bag(PendingOf, provisions), Bag(PendingOf, provisions'), lifted, multiset{p.acceptId});
    hide Bag, NonceOf, PendingOf;
  }

  /** What leaves one part joins the other. */
  lemma Shifted(all: multiset<nat>, before: multiset<nat>, after: multiset<nat>, gone: multiset<nat>, x: multiset<nat>)
    requires all == before + gone && before == after + x
    ensures all == after + (gone + x)
  {
    assert all == after + x + gone;
  }

  // ---- the connection -----------------------------------------------------------------------

  /** struct capn_rpc_conn with a vat of its own. */
  class Conn {
    var exports: seq<Export>
    var provisions: seq<Provision>
    var joins: seq<JoinSlot>
    var bootstrap: Option<nat>

    /** Everything passed to the send callback. */
    ghost var log: seq<Sent>
    /** The peer has so far given back only what it was given. */
    ghost var polite: bool
    ghost var ledger: Ledger
    /** All Join questions; the nonces of successful Provides and of answered Accepts; all embargoed Accepts. */
    ghost var joinsAsked: multiset<nat>
    ghost var provided: multiset<nat>
    ghost var accepted: multiset<nat>
    ghost var embargoed: multiset<nat>
    ghost var lifted: multiset<nat>
    /** What each part named; whether no export that a waiting part recorded was ever freed. */
    ghost var named: seq<seq<Option<nat>>>
    ghost var steady: bool
    /** Which events made and claimed what, and what the messages sent answer. */
    ghost var story: Story

    constructor (bootstrap: Option<nat>)
      ensures Valid() && log == [] && polite && steady && this.bootstrap == bootstrap
      ensures AllFreeIn(exports) && (forall k | 0 <= k < MAX_JOINS :: joins[k] == Unused)
      ensures (forall i | 0 <= i < MAX_EXPORTS :: ledger.peer[i] == 0) && joinsAsked == multiset{}
      ensures StoryOk() && story.events == []
    {
      this.bootstrap := bootstrap;
      exports := seq(MAX_EXPORTS, _ => Free);
      provisions := seq(MAX_PROVISIONS, _ => Vacant);
      joins := seq(MAX_JOINS, _ => Unused);
      log, polite := [], true;
      var zeros: seq<nat> := seq(MAX_EXPORTS, _ => 0);
      ledger := Ledger(zeros, zeros, zeros);
      joinsAsked, provided, accepted, embargoed, lifted := multiset{}, multiset{}, multiset{}, multiset{}, multiset{};
      named, steady := seq(MAX_JOINS, _ => []), true;
      var slots: seq<nat> := seq(MAX_PROVISIONS, _ => 0);
      story := Story([], [seq(MAX_EXPORTS, _ => Free)], [], slots, slots);
      new;
      hide Bag, Accounted, ClaimsHosted, ExportTable, JoinTable, ClaimOf, NonceOf, PendingOf, JoinQids;
      AllFree(exports, provisions, ledger);
      AllUnused(joins);
      assert Bag(AnswerQid, log) == multiset{} by { BagEmpty(AnswerQid, log); }
    }

    /** The reference counts are right, as long as the peer is polite. */
    ghost predicate CountsOk()
      reads `exports, `provisions, `ledger, `polite
      ensures CountsOk() ==> ExportTable(exports)
    {
      Counted(exports, provisions, ledger, polite)
    }

    /** Every Join question waits in a slot or has been answered, once. */
    ghost predicate JoinsOk()
      reads `joins, `joinsAsked, `log
      ensures JoinsOk() ==> JoinTable(joins)
    {
      && JoinTable(joins) && (forall i | 0 <= i < |joins| :: Unfinished(joins[i]))
      && joinsAsked == Bag(AnswerQid, log) + Bag(JoinQids, joins)
    }

    /** Every provision made is unclaimed, embargoed or handed over; every embargoed Accept is pending or answered. */
    ghost predicate HandoffsOk()
      reads `provisions, `provided, `accepted, `embargoed, `lifted
      ensures HandoffsOk() ==> |provisions| == MAX_PROVISIONS
    {
      Conserved(provisions, provided, accepted, embargoed, lifted)
    }

    /** Parts have their names, and while nothing recorded is freed, recorded exports name what they did. */
    ghost predicate NamesOk()
      reads `exports, `joins, `named, `steady
      ensures NamesOk() ==> |named| == |joins|
    {
      NamesFit(joins, named) && (steady ==> NamesHold(exports, joins, named))
    }

    ghost predicate Valid()
      reads this
    {
      CountsOk() && JoinsOk() && HandoffsOk() && NamesOk()
    }

    /** Everything sent is explained by what came. */
    ghost predicate StoryOk()
      reads `story, `exports, `provisions, `log, `polite
    {
      Told(story, exports, provisions, log, polite)
    }

    /** Passes a message that answers no join to the send callback. */
    ghost method Send(s: Sent)
      requires JoinsOk() && !s.JoinResult?
      modifies this`log
      ensures log == old(log) + [s] && JoinsOk()
    {
      BagSnoc(AnswerQid, log, s);
      hide Bag, JoinTable;
      log := log + [s];
    }

    /** capn_rpc_export, before anybody is told. */
    method Claim(server: nat) returns (i: int)
      requires ExportTable(exports)
      modifies this`exports
      ensures ExportTable(exports)
      ensures i == -1 ==> exports == old(exports) && NoSlotFor(exports, server)
      ensures i != -1 ==> i >= 0 && SlotFor(old(exports), i, server)
      ensures i != -1 ==> exports == Bumped(old(exports), i, server)
    {
      for k := 0 to MAX_EXPORTS
        invariant exports == old(exports)
        invariant forall j | 0 <= j < k && exports[j].Live? :: exports[j].server != server
      {
        if exports[k].Live? && exports[k].server == server {
          BumpedTable(exports, k, server);
          exports := Bumped(exports, k, server);
          return k;
        }
      }
      for k := 0 to MAX_EXPORTS
        invariant exports == old(exports)
        invariant forall j | 0 <= j < k :: exports[j].Live?
      {
        if exports[k].Free? {
          BumpedTable(exports, k, server);
          exports := Bumped(exports, k, server);
          return k;
        }
      }
      i := -1;
    }

    /** capn_rpc_export, called by the application, which then holds a reference itself. */
    method Export(server: nat) returns (i: int)
      requires Valid()
      modifies this`exports, this`ledger
      ensures Valid() && (i == -1 <==> NoSlotFor(old(exports), server))
      ensures i == -1 ==> exports == old(exports) && ledger == old(ledger)
      ensures i != -1 ==> 0 <= i < MAX_EXPORTS && SlotFor(old(exports), i, server)
      ensures i != -1 ==> exports == Bumped(old(exports), i, server) && ledger == ToOther(old(ledger), i)
    {
      hide Accounted, ClaimsHosted, ExportTable, Bag, JoinTable, NamesHold, SlotFor;
      ghost var was := exports;
      i := Claim(server);
      if i != -1 {
        ledger := ToOther(ledger, i);
        if polite {
          OtherGains(was, provisions, old(ledger), i, server);
          HostedStay(was, provisions, i, server);
        }
        if steady {
          NamesBumped(was, joins, named, i, server);
        }
      }
    }

    /** Finds or makes the server's export, for the peer. */
    method ClaimForPeer(server: nat) returns (i: int)
      requires CountsOk() && NamesOk()
      modifies this`exports, this`ledger
      ensures CountsOk() && NamesOk() && (i == -1 <==> NoSlotFor(old(exports), server))
      ensures i == -1 ==> exports == old(exports) && ledger == old(ledger)
      ensures i != -1 ==> 0 <= i < MAX_EXPORTS && SlotFor(old(exports), i, server)
      ensures i != -1 ==> exports == Bumped(old(exports), i, server) && ledger == ToPeer(old(ledger), i, server)
    {
      hide Accounted, ClaimsHosted, ExportTable, NamesHold, SlotFor;
      ghost var was := exports;
      i := Claim(server);
      if i != -1 {
        ledger := ToPeer(ledger, i, server);
        if polite {
          PeerGains(was, provisions, old(ledger), i, server);
          HostedStay(was, provisions, i, server);
        }
        if steady {
          NamesBumped(was, joins, named, i, server);
        }
      }
    }

    /** capn_rpc_set_bootstrap */
    method SetBootstrap(server: Option<nat>)
      requires Valid()
      modifies this`bootstrap
      ensures Valid() && bootstrap == server
    {
      bootstrap := server;
    }

    /** handle_bootstrap: the bootstrap server is exported at i; i is -1 when there is none or no room. */
    method HandleBootstrap(qid: nat) returns (ghost i: int)
      requires Valid()
      modifies this`exports, this`ledger, this`log
      ensures Valid() && (i == -1 <==> bootstrap.None? || NoSlotFor(old(exports), bootstrap.value))
      ensures i == -1 ==> log == old(log) + [Exception(qid)] && exports == old(exports) && ledger == old(ledger)
      ensures i != -1 ==>
        && 0 <= i < MAX_EXPORTS && SlotFor(old(exports), i, bootstrap.value)
        && exports == Bumped(old(exports), i, bootstrap.value) && log == old(log) + [Capability(qid, i)]
        && ledger == ToPeer(old(ledger), i, bootstrap.value)
    {
      hide CountsOk, JoinsOk, NamesOk, NoSlotFor;
      hide JoinTable, Bag, SlotFor;
      i := -1;
      if bootstrap.None? {
        Send(Exception(qid));
        return;
      }
      var eid := ClaimForPeer(bootstrap.value);
      i := eid;
      if eid == -1 {
        Send(Exception(qid));
      } else {
        Send(Capability(qid, eid));
      }
    }

    /**
     handle_release. A slot is freed when its count is used up; while the peer gives back only what it was
     given, that is when nobody holds a reference any more.
     */
    method HandleRelease(id: nat, count: nat)
      requires Valid() && count < 2 * INT_LIMIT
      modifies this`exports, this`ledger, this`polite, this`steady
      ensures Valid()
      ensures exports == if Hosts(old(exports), id) then Released(old(exports), id, count) else old(exports)
      ensures polite == (old(polite) &&
        (Hosts(old(exports), id) ==> count <= old(ledger).peer[id] && count < INT_LIMIT))
      ensures steady == (old(steady) && !(Hosts(old(exports), id) && exports[id].Free? && Recorded(joins, id)))
      ensures polite && Hosts(old(exports), id) ==> ledger == Returned(old(ledger), id, count)
      ensures polite && Hosts(old(exports), id) && exports[id].Free? ==>
        ledger.peer[id] == 0 && Bag(ClaimOf, provisions)[id] == 0
    {
      hide JoinsOk, HandoffsOk, NamesOk;
      hide Bag, Accounted, ClaimsHosted, ClaimOf, NamesHold, Recorded, ExportTable;
      if id >= MAX_EXPORTS || !exports[id].Live? {
        return;
      }
      Release(id, count);
    }

    /** The count of a slot in use goes down. */
    method Release(id: nat, count: nat)
      requires CountsOk() && NamesOk() && Hosts(exports, id) && count < 2 * INT_LIMIT
      modifies this`exports, this`ledger, this`polite, this`steady
      ensures CountsOk() && NamesOk() && exports == Released(old(exports), id, count)
      ensures polite == (old(polite) && count <= old(ledger).peer[id] && count < INT_LIMIT)
      ensures steady == (old(steady) && !(exports[id].Free? && Recorded(joins, id)))
      ensures polite ==> ledger == Returned(old(ledger), id, count)
      ensures polite && exports[id].Free? ==> ledger.peer[id] == 0 && Bag(ClaimOf, provisions)[id] == 0
    {
      hide Bag, Accounted, ClaimsHosted, ClaimOf, NamesHold, Recorded, ExportTable;
      ReleasedTable(exports, id, count);
      polite := polite && count <= ledger.peer[id] && count < INT_LIMIT;
      if polite {
        PeerReleases(exports, provisions, ledger, id, count);
        ledger := Returned(ledger, id, count);
      }
      steady := steady && !(Released(exports, id, count)[id].Free? && Recorded(joins, id));
      if steady {
        NamesReleased(exports, joins, named, id, count);
      }
      var left := exports[id].refcount - ToInt(count);
      exports := exports[id := if left <= 0 then Free else Live(left, exports[id].server)];
    }

    // ---- three-party handoff ----------------------------------------------------------------

    /** The first provision that can be claimed with this nonce, or none. */
    method FindHeld(nonce: nat) returns (k: nat)
      requires HandoffsOk()
      ensures FirstUnder(provisions, nonce, k)
    {
      k := 0;
      while k < MAX_PROVISIONS && !HeldUnder(provisions[k], nonce)
        invariant k <= MAX_PROVISIONS
        invariant forall j | 0 <= j < k :: !HeldUnder(provisions[j], nonce)
      {
        k := k + 1;
      }
    }

    method FindVacant() returns (k: nat)
      requires HandoffsOk()
      ensures k <= MAX_PROVISIONS && forall j | 0 <= j < k :: !provisions[j].Vacant?
      ensures k < MAX_PROVISIONS ==> provisions[k].Vacant?
    {
      k := 0;
      while k < MAX_PROVISIONS && !provisions[k].Vacant?
        invariant k <= MAX_PROVISIONS && forall j | 0 <= j < k :: !provisions[j].Vacant?
      {
        k := k + 1;
      }
    }

    /** Makes provision p, which holds a reference. */
    method Hold(k: nat, p: Provision)
      requires CountsOk() && HandoffsOk() && k < MAX_PROVISIONS && provisions[k].Vacant?
      requires p.Held? && Hosts(exports, p.eid) && exports[p.eid].server == p.server
      modifies this`exports, this`provisions, this`ledger, this`provided
      ensures CountsOk() && HandoffsOk() && provisions == old(provisions)[k := p]
      ensures exports == Bumped(old(exports), p.eid, p.server) && ledger == ToOther(old(ledger), p.eid)
      ensures provided == old(provided) + multiset{p.nonce}
    {
      hide Bag, Accounted, ClaimsHosted, ExportTable, NonceOf, PendingOf;
      BumpedTable(exports, p.eid, p.server);
      if polite {
        ProvisionMade(exports, provisions, ledger, p.eid, k, p);
      }
      HoldsMore(provisions, k, p);
      provisions := provisions[k := p];
      exports := exports[p.eid := Live(exports[p.eid].refcount + 1, p.server)];
      ledger := ToOther(ledger, p.eid);
      provided := provided + multiset{p.nonce};
    }

    /** handle_provide: holds the target for whoever brings the nonce; k is the slot, or past the end. */
    method HandleProvide(qid: nat, target: Target, recipient: Option<nat>) returns (ghost k: nat)
      requires Valid()
      modifies this`exports, this`provisions, this`ledger, this`log, this`provided
      ensures Valid()
      ensures var eid := Resolve(old(exports), target);
        if k < MAX_PROVISIONS then
          && eid >= 0 && recipient.Some? && old(provisions[k].Vacant?) && log == old(log) + [Confirmation(qid)]
          && provisions == old(provisions)[k := Held(recipient.value, old(exports)[eid].server, eid, qid)]
          && exports == Bumped(old(exports), eid, old(exports)[eid].server)
            && provided == old(provided) + multiset{recipient.value}
        else
          && (eid == -1 || recipient.None? || forall j | 0 <= j < MAX_PROVISIONS :: !old(provisions)[j].Vacant?)
          && log == old(log) + [Exception(qid)] && provisions == old(provisions) && exports == old(exports)
          && provided == old(provided)
      ensures k < MAX_PROVISIONS ==> provisions[k].Held? && TargetAt(old(exports), target, provisions[k].eid)
      ensures k >= MAX_PROVISIONS ==>
        || recipient.None? || (forall j | 0 <= j < MAX_PROVISIONS :: !old(provisions)[j].Vacant?)
        || forall i :: !TargetAt(old(exports), target, i)
    {
      hide JoinsOk, CountsOk;
      ResolveIs(exports, target);
      hide Bag, JoinTable, Accounted, ClaimsHosted, ExportTable, NamesHold;
      k := MAX_PROVISIONS;
      var eid := Resolve(exports, target);
      if eid < 0 || recipient.None? {
        Send(Exception(qid));
        return;
      }
      var slot := FindVacant();
      if slot == MAX_PROVISIONS {
        Send(Exception(qid));
        return;
      }
      k := slot;
      if steady {
        NamesBumped(exports, joins, named, eid, exports[eid].server);
      }
      Hold(slot, Held(recipient.value, exports[eid].server, eid, qid));
      Send(Confirmation(qid));
    }

    /**
     handle_accept: the first provision held under the nonce is claimed for good and its server is exported at
     i; under an embargo the answer waits. k is past the end when there is none, i is -1 when the table is full.
     */
    method HandleAccept(qid: nat, nonce: Option<nat>, embargo: bool) returns (ghost k: nat, ghost i: int)
      requires Valid()
      modifies this`exports, this`provisions, this`ledger, this`log, this`accepted, this`embargoed
      ensures Valid() && k <= MAX_PROVISIONS
      ensures if nonce.Some? then FirstUnder(old(provisions), nonce.value, k) else k == MAX_PROVISIONS
      ensures k < MAX_PROVISIONS ==> (i == -1 <==> NoSlotFor(old(exports), old(provisions)[k].server))
      ensures k == MAX_PROVISIONS || i == -1 ==>
        && log == old(log) + [Exception(qid)] && exports == old(exports) && provisions == old(provisions)
        && accepted == old(accepted) && embargoed == old(embargoed)
      ensures k < MAX_PROVISIONS && i != -1 ==>
        && 0 <= i < MAX_EXPORTS && SlotFor(old(exports), i, old(provisions)[k].server)
        && exports == Bumped(old(exports), i, old(provisions)[k].server)
      ensures k < MAX_PROVISIONS && i != -1 && embargo ==>
        && provisions == old(provisions)[k := Embargoed(nonce.value, old(provisions)[k].server, i,
             old(provisions)[k].provideId, qid)]
        && log == old(log) && accepted == old(accepted) && embargoed == old(embargoed) + multiset{qid}
      ensures k < MAX_PROVISIONS && i != -1 && !embargo ==>
        && provisions == old(provisions)[k := Vacant] && log == old(log) + [Capability(qid, i)]
        && accepted == old(accepted) + multiset{nonce.value} && embargoed == old(embargoed)
    {
      hide JoinsOk, CountsOk, HandoffsOk, NamesOk;
      hide Bag, JoinTable, NoSlotFor, SlotFor, NonceOf, PendingOf, Bumped;
      k, i := MAX_PROVISIONS, -1;
      if nonce.None? {
        Send(Exception(qid));
        return;
      }
      var slot := FindHeld(nonce.value);
      k := slot;
      if slot == MAX_PROVISIONS {
        Send(Exception(qid));
        return;
      }
      var eid;
      if embargo {
        eid := ClaimForAccept(slot, qid);
      } else {
        eid := ClaimNow(slot);
      }
      i := eid;
      if eid < 0 {
        Send(Exception(qid));
      } else if !embargo {
        Send(Capability(qid, eid));
      }
    }

    /** The provision is claimed and handed over. */
    method ClaimNow(k: nat) returns (i: int)
      requires CountsOk() && NamesOk() && HandoffsOk() && k < MAX_PROVISIONS && provisions[k].Held?
      modifies this`exports, this`provisions, this`ledger, this`accepted
      ensures CountsOk() && NamesOk() && HandoffsOk() && (i == -1 <==>
        NoSlotFor(old(exports), old(provisions)[k].server))
      ensures i == -1 ==>
        exports == old(exports) && provisions == old(provisions) && accepted == old(accepted)
      ensures i != -1 ==>
        && 0 <= i < MAX_EXPORTS && SlotFor(old(exports), i, old(provisions)[k].server)
        && exports == Bumped(old(exports), i, old(provisions)[k].server)
        && provisions == old(provisions)[k := Vacant]
        && accepted == old(accepted) + multiset{old(provisions)[k].nonce}
    {
      hide CountsOk, NamesOk;
      hide Bag, NoSlotFor, SlotFor, NonceOf, PendingOf, Bumped;
      i := ClaimForPeer(provisions[k].server);
      if i != -1 {
        Vacate(k);
      }
    }

    /** The provision is claimed, for an Accept that will be answered later. */
    method ClaimForAccept(k: nat, qid: nat) returns (i: int)
      requires CountsOk() && NamesOk() && HandoffsOk() && k < MAX_PROVISIONS && provisions[k].Held?
      modifies this`exports, this`provisions, this`embargoed
      ensures CountsOk() && NamesOk() && HandoffsOk() && (i == -1 <==>
        NoSlotFor(old(exports), old(provisions)[k].server))
      ensures i == -1 ==>
        exports == old(exports) && provisions == old(provisions) && embargoed == old(embargoed)
      ensures i != -1 ==>
        && 0 <= i < MAX_EXPORTS && SlotFor(old(exports), i, old(provisions)[k].server)
        && exports == Bumped(old(exports), i, old(provisions)[k].server)
        && provisions == old(provisions)[k := Claimed(old(provisions)[k], i, qid)]
        && embargoed == old(embargoed) + multiset{qid}
    {
      hide Bag, Accounted, ClaimsHosted, ExportTable, NonceOf, PendingOf, NamesHold, SlotFor;
      var server := provisions[k].server;
      ghost var was := exports;
      i := Claim(server);
      if i != -1 {
        ghost var p := Claimed(provisions[k], i, qid);
        if polite {
          ClaimGains(was, provisions, ledger, i, server, k, p);
          ClaimHosted(was, provisions, i, server, k, p);
        }
        if steady {
          NamesBumped(was, joins, named, i, server);
        }
        ClaimWaits(provisions, k, p);
        provisions := provisions[k := Claimed(provisions[k], i, qid)];
        embargoed := embargoed + multiset{qid};
      }
    }

    /** The provision is handed over. */
    method Vacate(k: nat)
      requires CountsOk() && HandoffsOk() && k < MAX_PROVISIONS && provisions[k].Held?
      modifies this`provisions, this`accepted
      ensures CountsOk() && HandoffsOk() && provisions == old(provisions)[k := Vacant]
      ensures accepted == old(accepted) + multiset{old(provisions)[k].nonce}
    {
      hide Bag, Accounted, ClaimsHosted, ExportTable, NonceOf, PendingOf;
      ClaimsStay(exports, provisions, ledger, k, Vacant);
      HandedOver(provisions, k);
      accepted := accepted + multiset{provisions[k].nonce};
      provisions := provisions[k := Vacant];
    }

    /**
     release_provide_embargo: the first Accept embargoed under this Provide question is answered with the export
     that was claimed for it. k is past the end when there is none.
     */
    method HandleLift(provideId: nat) returns (ghost k: nat)
      requires Valid()
      modifies this`provisions, this`ledger, this`log, this`accepted, this`lifted
      ensures Valid() && k <= MAX_PROVISIONS
      ensures forall j | 0 <= j < k :: old(provisions)[j].Embargoed? ==> old(provisions)[j].provideId != provideId
      ensures k == MAX_PROVISIONS ==>
        log == old(log) && provisions == old(provisions) && accepted == old(accepted) && lifted == old(lifted)
      ensures k < MAX_PROVISIONS ==>
        && old(provisions)[k].Embargoed? && old(provisions)[k].provideId == provideId
        && provisions == old(provisions)[k := Vacant]
        && log == old(log) + [Capability(old(provisions)[k].acceptId, old(provisions)[k].eid)]
        && accepted == old(accepted) + multiset{old(provisions)[k].nonce}
        && lifted == old(lifted) + multiset{old(provisions)[k].acceptId}
      ensures polite && k < MAX_PROVISIONS ==>
        HostsServer(exports, old(provisions)[k].eid, old(provisions)[k].server)
    {
      hide JoinsOk, CountsOk, HandoffsOk, NamesOk;
      hide Bag, JoinTable;
      var slot := 0;
      while slot < MAX_PROVISIONS && !WaitsOn(provisions[slot], provideId)
        invariant slot <= MAX_PROVISIONS
        invariant forall j | 0 <= j < slot :: !WaitsOn(provisions[j], provideId)
      {
        slot := slot + 1;
      }
      k := slot;
      if slot < MAX_PROVISIONS {
        var p := provisions[slot];
        Lift(slot);
        Send(Capability(p.acceptId, p.eid));
      }
    }

    /** The peer gets the reference that the claim held. */
    method Lift(k: nat)
      requires CountsOk() && HandoffsOk() && k < MAX_PROVISIONS && provisions[k].Embargoed?
      modifies this`provisions, this`ledger, this`accepted, this`lifted
      ensures CountsOk() && HandoffsOk() && provisions == old(provisions)[k := Vacant]
      ensures accepted == old(accepted) + multiset{old(provisions)[k].nonce}
      ensures lifted == old(lifted) + multiset{old(provisions)[k].acceptId}
      ensures polite ==> HostsServer(exports, old(provisions)[k].eid, old(provisions)[k].server)
    {
      assert 0 <= provisions[k].eid < MAX_EXPORTS;
      hide *;
      LiftConserves(provisions, provided, accepted, embargoed, lifted, k);
      LiftCounts(exports, provisions, ledger, polite, k);
      ghost var p := provisions[k];
      provisions := provisions[k := Vacant];
      ledger := ToPeer(ledger, p.eid, p.server);
      accepted := accepted + multiset{p.nonce};
      lifted := lifted + multiset{p.acceptId};
    }

    // ---- joins ------------------------------------------------------------------------------

    /** send_join_result; a capability that goes along gives the receiver a reference. */
    method SendJoinResult(qid: nat, joinId: nat, succeeded: bool, withCap: bool, eid: int)
      requires CountsOk() && (withCap && eid >= 0 ==> Hosts(exports, eid))
      modifies this`exports, this`ledger, this`log
      ensures CountsOk()
      ensures log == old(log) + [JoinResult(qid, joinId, succeeded, if withCap && eid >= 0 then Some(eid) else None)]
      ensures exports == if withCap && eid >= 0 then Bumped(old(exports), eid, old(exports)[eid].server)
        else old(exports)
      ensures ledger == if withCap && eid >= 0 then ToPeer(old(ledger), eid, old(exports)[eid].server) else old(ledger)
    {
      hide Accounted, ClaimsHosted, ExportTable;
      if withCap && eid >= 0 {
        ghost var server := exports[eid].server;
        BumpedTable(exports, eid, server);
        if polite {
          PeerGains(exports, provisions, ledger, eid, server);
          HostedStay(exports, provisions, eid, server);
        }
        exports := exports[eid := Live(exports[eid].refcount + 1, exports[eid].server)];
        ledger := ToPeer(ledger, eid, server);
      }
      log := log + [JoinResult(qid, joinId, succeeded, if withCap && eid >= 0 then Some(eid) else None)];
    }

    /** join_slot_find */
    method JoinSlotFind(key: JoinKey) returns (k: int)
      requires JoinsOk() && KeyOk(key)
      modifies this`joins
      ensures JoinsOk()
      ensures k == -1 ==> joins == old(joins) && NoPlaceFor(old(joins), key)
      ensures k != -1 ==>
        && 0 <= k < MAX_JOINS && PlaceFor(old(joins), k, key)
        && joins == old(joins)[k := Opened(old(joins)[k], key.joinId, key.partCount)]
        && joins[k].joinId == key.joinId && |joins[k].parts| == key.partCount
    {
      hide Bag, SlotOk;
      for i := 0 to MAX_JOINS
        invariant joins == old(joins)
        invariant forall j | 0 <= j < i && joins[j].Joining? :: joins[j].joinId != key.joinId
      {
        if joins[i].Joining? && joins[i].joinId == key.joinId {
          return if |joins[i].parts| == key.partCount then i else -1;
        }
      }
      for i := 0 to MAX_JOINS
        invariant joins == old(joins)
        invariant forall j | 0 <= j < i :: joins[j].Joining?
      {
        if joins[i].Unused? {
          OpenedTable(joins, i, key);
          joins := joins[i := Joining(key.joinId, 0, seq(key.partCount, _ => Missing))];
          return i;
        }
      }
      k := -1;
    }

    /** join_complete: compares the targets and answers every part; the last target resolved is hosted still. */
    method JoinComplete(k: nat, ghost last: nat) returns (same: bool)
      requires k < |joins| && joins[k].Joining? && Complete(joins[k].parts) && CountsOk() && JoinTable(joins)
      requires joinsAsked == Bag(AnswerQid, log) + Bag(JoinQids, joins)
      requires forall i | 0 <= i < |joins| && i != k :: Unfinished(joins[i])
      requires last < |joins[k].parts|
      requires joins[k].parts[last].eid >= 0 ==> Hosts(exports, joins[k].parts[last].eid)
      modifies this`exports, this`ledger, this`log, this`joins
      ensures CountsOk() && JoinsOk() && joins == old(joins)[k := Unused]
      ensures var j := old(joins)[k];
        && (same <==> Same(j.parts)) && log == old(log) + Answers(j.joinId, j.parts, same, |j.parts|)
        && (same ==> Hosts(old(exports), j.parts[0].eid)) && (!same ==> ledger == old(ledger))
        && exports == if same then Bumped(old(exports), j.parts[0].eid, old(exports)[j.parts[0].eid].server)
          else old(exports)
    {
      hide Accounted, ClaimsHosted, ExportTable, Bag, JoinTable;
      var j := joins[k];
      var first := j.parts[0].eid;
      same := first >= 0;
      var i := 1;
      while same && i < |j.parts|
        invariant 1 <= i <= |j.parts|
        invariant same <==> first >= 0 && forall n | 0 <= n < i :: j.parts[n].eid == first
      {
        if j.parts[i].eid != first {
          same := false;
        }
        i := i + 1;
      }
      JoinLeaves(joins, k, log, same);
      for n := 0 to |j.parts|
        invariant joins == old(joins) && joinsAsked == old(joinsAsked)
        invariant CountsOk() && log == old(log) + Answers(j.joinId, j.parts, same, n)
        invariant !same || n == 0 ==> ledger == old(ledger)
        invariant exports == if same && n > 0 then Bumped(old(exports), first, old(exports)[first].server)
          else old(exports)
      {
        SendJoinResult(j.parts[n].qid, j.joinId, same, same && n == 0, first);
      }
      joins := joins[k := Unused];
    }

    /**
     handle_join: the part is refused, or it waits for the others in slot k, or it finishes the join there, and
     then Verdict says whether the join has succeeded just if all parts named one server.
     */
    method HandleJoin(qid: nat, key: Option<JoinKey>, target: Target) returns (ghost k: nat)
      requires Valid()
      modifies this`exports, this`ledger, this`log, this`joins, this`joinsAsked, this`named
      ensures Valid() && joinsAsked == old(joinsAsked) + multiset{qid}
      ensures Refused(old(joins), key) ==>
        && log == old(log) + [JoinResult(qid, if key.Some? then key.value.joinId else 0, false, None)]
        && joins == old(joins) && exports == old(exports) && ledger == old(ledger) && named == old(named)
      ensures exports == old(exports) ==> ledger == old(ledger)
      ensures !Refused(old(joins), key) ==>
        && PlaceFor(old(joins), k, key.value)
        && Joined(Opened(old(joins)[k], key.value.joinId, key.value.partCount), key.value.partNum, qid,
            Resolve(old(exports), target), k, old(joins), joins, old(exports), exports, old(log), log)
      ensures !Refused(old(joins), key) ==>
        && (old(joins)[k].Joining? ==> |old(named)[k]| == key.value.partCount)
        && var eid, known := Resolve(old(exports), target), NamesIn(old(joins)[k], key.value, old(named)[k]);
        && named == old(named)[k := known[key.value.partNum := Who(old(exports), eid)]]
        && Verdict(old(exports), Opened(old(joins)[k], key.value.joinId, key.value.partCount), known,
            key.value.partNum, qid, eid, steady)
    {
      hide CountsOk, JoinsOk, HandoffsOk;
      hide Bag, Same, JoinTable, Complete, Refused, NoPlaceFor;
      hide ExportTable, NamesHold, Verdict;
      k := 0;
      RefusedEarly(joins, key);
      if key.None? {
        Refuse(qid, 0);
        return;
      }
      if key.value.partNum >= key.value.partCount || key.value.partCount > MAX_JOIN_PARTS {
        Refuse(qid, key.value.joinId);
        return;
      }
      var slot := JoinSlotFind(key.value);
      if slot >= 0 {
        RefusedAt(old(joins), slot, key.value);
      }
      if slot < 0 || joins[slot].parts[key.value.partNum].Part? {
        assert joins == old(joins);
        Refuse(qid, key.value.joinId);
        return;
      }
      k := slot;
      TakePart(slot, key.value.partNum, qid, target);
      assert old(CountsOk());
      ghost var eid, known := Resolve(old(exports), target), NamesIn(old(joins)[k], key.value, named[k]);
      NamesStep(key.value, qid, eid, k, old(joins), joins, old(exports), exports, old(log), log, named, steady);
      named := named[k := known[key.value.partNum := Who(old(exports), eid)]];
    }

    /** The part counts as asked, and is answered on its own. */
    method Refuse(qid: nat, joinId: nat)
      requires CountsOk() && JoinsOk()
      modifies this`exports, this`ledger, this`log, this`joinsAsked
      ensures CountsOk() && JoinsOk() && joinsAsked == old(joinsAsked) + multiset{qid}
      ensures log == old(log) + [JoinResult(qid, joinId, false, None)]
      ensures exports == old(exports) && ledger == old(ledger)
    {
      hide CountsOk, Bag, JoinTable;
      BagSnoc(AnswerQid, log, JoinResult(qid, joinId, false, None));
      joinsAsked := joinsAsked + multiset{qid};
      SendJoinResult(qid, joinId, false, false, -1);
    }

    method TakePart(k: nat, n: nat, qid: nat, target: Target)
      requires CountsOk() && JoinsOk() && k < MAX_JOINS && joins[k].Joining? && n < |joins[k].parts|
      requires joins[k].parts[n].Missing?
      modifies this`exports, this`ledger, this`log, this`joins, this`joinsAsked
      ensures CountsOk() && JoinsOk() && joinsAsked == old(joinsAsked) + multiset{qid}
      ensures exports == old(exports) ==> ledger == old(ledger)
      ensures Joined(old(joins)[k], n, qid, Resolve(old(exports), target), k, old(joins), joins, old(exports), exports,
        old(log), log)
    {
      hide CountsOk, Bag, JoinTable;
      PartInTable(joins, k, n, qid, Resolve(exports, target));
      var eid := Resolve(exports, target);
      joins := joins[k := Joining(joins[k].joinId, joins[k].nseen + 1, joins[k].parts[n := Part(qid, eid)])];
      joinsAsked := joinsAsked + multiset{qid};
      if joins[k].nseen == |joins[k].parts| {
        AllIn(joins[k]);
        var same := JoinComplete(k, n);
      }
    }

    // ---- runs -------------------------------------------------------------------------------

    /**
     capn_rpc_handle, for the messages that touch these tables, and the application's own exports. What is sent
     from then on is added to the log, and explained by this event.
     */
    method Handle(e: Event)
      requires Valid() && StoryOk() && (e.Releasing? ==> e.count < 2 * INT_LIMIT)
      modifies this
      ensures Valid() && old(log) <= log && joinsAsked == old(joinsAsked) + JoinAsked(e)
      ensures StoryOk() && story.events == old(story.events) + [e]
      ensures old(story.cause) <= story.cause && old(story.tables) <= story.tables
    {
      hide CountsOk, JoinsOk, HandoffsOk, NamesOk;
      hide Bag;
      match e
      case Providing(_, _, _) => var _ := HandleProviding(e);
      case Accepting(_, _, _) => var _, _ := HandleAccepting(e);
      case Lifting(_) => HandleLifting(e);
      case JoiningPart(_, _, _) => HandleJoining(e);
      case _ => HandleAside(e);
    }

    method HandleAside(e: Event)
      requires Valid() && StoryOk() && (e.Releasing? ==> e.count < 2 * INT_LIMIT)
      requires !e.JoiningPart? && !e.Providing? && !e.Accepting? && !e.Lifting?
      modifies this
      ensures Valid() && old(log) <= log && joinsAsked == old(joinsAsked)
      ensures StoryOk() && story == Extended(old(story), e, exports, |log| - |old(log)|)
    {
      hide CountsOk, JoinsOk, HandoffsOk, NamesOk, Told;
      hide Bag, SlotFor, NoSlotFor, Released, Bumped, Recorded, ToPeer, ToOther, Returned, HostsServer;
      match e {
        case Bootstrapping(qid) => var _ := HandleBootstrap(qid);
        case Releasing(id, count) => HandleRelease(id, count);
        case Exporting(server) => var _ := Export(server);
        case Offering(server) => SetBootstrap(server);
      }
      AsideTold(story, old(exports), exports, provisions, old(log), log, old(polite), polite, e);
      story := Extended(story, e, exports, |log| - |old(log)|);
    }

    method HandleJoining(e: Event)
      requires Valid() && StoryOk() && e.JoiningPart?
      modifies this
      ensures Valid() && old(log) <= log && joinsAsked == old(joinsAsked) + multiset{e.qid}
      ensures StoryOk() && story == Extended(old(story), e, exports, |log| - |old(log)|)
    {
      hide CountsOk, JoinsOk, HandoffsOk, NamesOk, Told;
      hide Bag, Refused, Joined, PlaceFor, Verdict, Resolve, Who, NamesIn, Opened;
      ghost var k := HandleJoin(e.qid, e.key, e.target);
      RefusedEarly(old(joins), e.key);
      if !Refused(old(joins), e.key) {
        ghost var open := Opened(old(joins)[k], e.key.value.joinId, e.key.value.partCount);
        OpenFor(old(joins), k, e.key.value);
        JoinedSends(open, e.key.value.partNum, e.qid, Resolve(old(exports), e.target), k, old(joins), joins,
          old(exports), exports, old(log), log);
      }
      AsideTold(story, old(exports), exports, provisions, old(log), log, polite, polite, e);
      story := Extended(story, e, exports, |log| - |old(log)|);
    }

    method HandleProviding(e: Event) returns (ghost k: nat)
      requires Valid() && StoryOk() && e.Providing?
      modifies this
      ensures Valid() && old(log) <= log && joinsAsked == old(joinsAsked)
      ensures StoryOk() && story == Next(old(story), e, exports, |log| - |old(log)|, k, |old(story.events)|, 0)
    {
      hide CountsOk, JoinsOk, HandoffsOk, NamesOk, Told;
      hide Bag;
      k := HandleProvide(e.qid, e.target, e.recipient);
      if k < MAX_PROVISIONS {
        ProvideTold(story, old(exports), exports, old(provisions), old(log), polite, e, k, provisions[k]);
      } else {
        FailureTold(story, exports, provisions, old(log), polite, e);
      }
      story := Next(story, e, exports, |log| - |old(log)|, k, |old(story.events)|, 0);
    }

    method HandleAccepting(e: Event) returns (ghost k: nat, ghost made: nat)
      requires Valid() && StoryOk() && e.Accepting?
      modifies this
      ensures Valid() && old(log) <= log && joinsAsked == old(joinsAsked)
      ensures StoryOk() && story == Next(old(story), e, exports, |log| - |old(log)|, k, made, |old(story.events)|)
    {
      hide CountsOk, JoinsOk, HandoffsOk, NamesOk, Told;
      hide Bag;
      ghost var slot, i := HandleAccept(e.qid, e.nonce, e.embargo);
      k, made := MAX_PROVISIONS, 0;
      if slot == MAX_PROVISIONS || i == -1 {
        FailureTold(story, exports, provisions, old(log), polite, e);
      } else if e.embargo {
        k, made := slot, story.made[slot];
        ClaimTold(story, old(exports), exports, old(provisions), old(log), polite, e, slot, i);
      } else {
        HandoverTold(story, old(exports), exports, old(provisions), old(log), polite, e, slot, i);
      }
      story := Next(story, e, exports, |log| - |old(log)|, k, made, |old(story.events)|);
    }

    method HandleLifting(e: Event)
      requires Valid() && StoryOk() && e.Lifting?
      modifies this
      ensures Valid() && old(log) <= log && joinsAsked == old(joinsAsked)
      ensures StoryOk() && story == Extended(old(story), e, exports, |log| - |old(log)|)
    {
      hide CountsOk, JoinsOk, HandoffsOk, NamesOk, Told;
      hide Bag;
      ghost var k := HandleLift(e.provideId);
      if k < MAX_PROVISIONS {
        LiftTold(story, exports, old(provisions), old(log), polite, e, k);
      } else {
        AsideTold(story, exports, exports, provisions, log, log, polite, polite, e);
      }
      story := Extended(story, e, exports, |log| - |old(log)|);
    }
  }

  /**
   Whatever comes, every Join question has been answered once or waits; every provision made is unclaimed,
   embargoed or handed over; while the peer is polite every reference count is what is held; and everything sent
   answers an event of the run: a capability that was promised to a third party goes to the Accept that brought the
   nonce of its Provide, under an embargo not before a Disembargo that names this Provide, and is then the
   server that the Provide had for its target.
   */
  method Run(bootstrap: Option<nat>, events: seq<Event>) returns (c: Conn)
    requires forall e | e in events && e.Releasing? :: e.count < 2 * INT_LIMIT
    ensures fresh(c) && c.Valid()
    ensures Bag(JoinAsked, events) == Bag(AnswerQid, c.log) + Bag(JoinQids, c.joins)
    ensures c.provided == Bag(NonceOf, c.provisions) + c.accepted
    ensures c.polite ==> Accounted(c.exports, c.provisions, c.ledger) && ClaimsHosted(c.exports, c.provisions)
    ensures c.StoryOk() && c.story.events == events && |c.story.cause| == |c.log|
    ensures forall x | 0 <= x < |c.log| :: Explained(c.story, c.log[x], c.story.cause[x], c.polite)
  {
    hide Bag, Explained, SlotTold, Accounted, ClaimsHosted, ExportTable, JoinTable, NamesHold, NamesFit;
    c := new Conn(bootstrap);
    assert Bag(JoinAsked, events[..0]) == multiset{} by { BagEmpty(JoinAsked, events[..0]); }
    for n := 0 to |events|
      invariant fresh(c) && c.Valid() && c.joinsAsked == Bag(JoinAsked, events[..n])
      invariant c.StoryOk() && c.story.events == events[..n]
    {
      hide *;
      BagStep(JoinAsked, events, n);
      c.Handle(events[n]);
    }
    assert events[..|events|] == events;
  }

  ghost predicate AllFreeIn(exports: seq<Export>) {
    |exports| == MAX_EXPORTS && forall i | 0 <= i < |exports| :: exports[i] == Free
  }
}

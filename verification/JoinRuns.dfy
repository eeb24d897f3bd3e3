/** Two runs on a fresh connection after which a join has not told the truth. */
module JoinRuns {
  import opened Rpc

  lemma FirstOut(exports: seq<Export>, server: nat)
    requires AllFreeIn(exports)
    ensures exports[0] == Free && !NoSlotFor(exports, server) && (forall i | SlotFor(exports, i, server) :: i == 0)
    ensures Bumped(exports, 0, server) == exports[0 := Live(1, server)]
  {
    assert exports[0] == Free;
  }

  /** Export 0 by itself, and given back. */
  lemma OnlyFirst(exports: seq<Export>, server: nat)
    requires AllFreeIn(exports)
    ensures var one := exports[0 := Live(1, server)];
      Hosts(one, 0) && Resolve(one, Imported(0)) == 0 && Who(one, 0) == Some(server) && Released(one, 0, 1) == exports
  {
  }

  /** Export 1 beside it, and given back. */
  lemma SecondOut(exports: seq<Export>, x: nat, a: nat)
    requires AllFreeIn(exports) && x != a
    ensures var one := exports[0 := Live(1, x)];
      && one[1] == Free && !NoSlotFor(one, a) && (forall i | SlotFor(one, i, a) :: i == 1)
      && var two := one[1 := Live(1, a)];
      && Bumped(one, 1, a) == two && Released(two, 1, 1) == one
      && Hosts(two, 1) && Resolve(two, Imported(1)) == 1 && Who(two, 1) == Some(a)
  {
    var one := exports[0 := Live(1, x)];
    assert one[1] == Free && one[0] == Live(1, x);
    assert one[1 := Live(1, a)][1 := Free] == one;
  }

  ghost predicate AllUnusedIn(joins: seq<JoinSlot>) {
    |joins| == MAX_JOINS && forall i | 0 <= i < |joins| :: joins[i] == Unused
  }

  /** The first of two parts waits in slot k, which recorded export eid, and nothing else does. */
  ghost predicate Half(joins: seq<JoinSlot>, k: nat, eid: int) {
    && k < |joins| == MAX_JOINS && joins[k] == Joining(7, 1, [Part(2, eid), Missing])
    && forall i | 0 <= i < |joins| && i != k :: joins[i] == Unused
  }

  lemma Welcome(joins: seq<JoinSlot>, key: JoinKey)
    requires AllUnusedIn(joins) && KeyOk(key)
    ensures !Refused(joins, Some(key))
  {
    assert PlaceFor(joins, 0, key);
  }

  lemma OneWaits(joins: seq<JoinSlot>, k: nat, eid: int)
    requires AllUnusedIn(joins) && k < MAX_JOINS
    ensures var j := Opened(joins[k], 7, 2);
      && j.Joining? && |j.parts| == 2
      && var full := WithPart(j, 0, 2, eid);
      && Unfinished(full) && Half(joins[k := full], k, eid)
  {
    var j := Opened(joins[k], 7, 2);
    assert WithPart(j, 0, 2, eid).parts == [Part(2, eid), Missing];
  }

  lemma HalfWaits(joins: seq<JoinSlot>, k: nat, eid: int)
    requires Half(joins, k, eid)
    ensures !Refused(joins, Some(JoinKey(7, 2, 1)))
    ensures forall i | PlaceFor(joins, i, JoinKey(7, 2, 1)) :: i == k
    ensures Opened(joins[k], 7, 2) == joins[k]
  {
    assert PlaceFor(joins, k, JoinKey(7, 2, 1));
  }

  lemma BothIn(e1: int, e2: int)
    ensures var full := WithPart(Joining(7, 1, [Part(2, e1), Missing]), 1, 3, e2);
      && !Unfinished(full) && Complete(full.parts) && (Same(full.parts) <==> e1 >= 0 && e1 == e2) && |full.parts| == 2
      && forall same :: Answers(7, full.parts, same, 2)
          == [JoinResult(2, 7, same, if same then Some(e1) else None), JoinResult(3, 7, same, None)]
  {
    var full := WithPart(Joining(7, 1, [Part(2, e1), Missing]), 1, 3, e2);
    assert full.parts == [Part(2, e1), Part(3, e2)];
    forall same
      ensures Answers(7, full.parts, same, 2)
        == [JoinResult(2, 7, same, if same then Some(e1) else None), JoinResult(3, 7, same, None)]
    {
      assert Answers(7, full.parts, same, 1) == [JoinResult(2, 7, same, if same then Some(e1) else None)];
    }
  }

  /** Question 2 is the first of two parts, for export eid. */
  method FirstPart(c: Conn, eid: nat) returns (ghost k: nat)
    requires c.Valid() && AllUnusedIn(c.joins) && Hosts(c.exports, eid)
    modifies c`exports, c`ledger, c`log, c`joins, c`joinsAsked, c`named
    ensures c.Valid() && Half(c.joins, k, eid) && k < |c.named| && c.named[k] == [Who(c.exports, eid), None]
    ensures c.exports == old(c.exports) && c.ledger == old(c.ledger) && c.log == old(c.log)
  {
    hide Bag, Answers, Refused, PlaceFor, NoPlaceFor, NamesHold, NamesFit, Verdict, AllUnusedIn, Half;
    hide Complete, Same, Accounted, ClaimsHosted, ExportTable, JoinTable, WithPart, Opened, Unfinished;
    ghost var unused := c.joins;
    Welcome(unused, JoinKey(7, 2, 0));
    k := c.HandleJoin(2, Some(JoinKey(7, 2, 0)), Imported(eid));
    assert unused[k] == Unused by { Slots(unused, k); }
    OneWaits(unused, k, eid);
  }

  lemma Slots(joins: seq<JoinSlot>, k: nat)
    requires AllUnusedIn(joins) && k < |joins|
    ensures joins[k] == Unused
  {
  }

  /** Question 3 is the second. */
  method SecondPart(c: Conn, ghost k: nat, ghost e1: nat, e2: nat)
    requires c.Valid() && Half(c.joins, k, e1) && Hosts(c.exports, e2) && k < |c.named|
    modifies c`exports, c`ledger, c`log, c`joins, c`joinsAsked, c`named
    ensures c.Valid() && k < |c.named|
    ensures |old(c.named[k])| == 2 && c.named[k] == old(c.named[k])[1 := Who(old(c.exports), e2)]
    ensures c.log == old(c.log)
      + [JoinResult(2, 7, e1 == e2, if e1 == e2 then Some(e1) else None), JoinResult(3, 7, e1 == e2, None)]
  {
    hide Bag, Answers, Refused, PlaceFor, NoPlaceFor, NamesHold, NamesFit, Verdict, Who;
    hide Complete, Same, Accounted, ClaimsHosted, ExportTable, JoinTable, WithPart, Opened, Unfinished;
    HalfWaits(c.joins, k, e1);
    BothIn(e1, e2);
    var k' := c.HandleJoin(3, Some(JoinKey(7, 2, 1)), Imported(e2));
  }

  /** The bootstrap server is export 0 by itself, held by the peer. */
  method Open(a: nat) returns (c: Conn, ghost free: seq<Export>)
    ensures fresh(c) && c.Valid() && c.polite && AllUnusedIn(c.joins) && c.log == [Capability(1, 0)]
    ensures AllFreeIn(free) && c.exports == free[0 := Live(1, a)] && c.ledger.peer[0] == 1 && c.ledger.peer[1] == 0
  {
    hide Bag, SlotFor, NoSlotFor, Released, Bumped, Resolve, Who;
    hide Accounted, ClaimsHosted, ExportTable, JoinTable, NamesHold, NamesFit;
    c := new Conn(Some(a));
    free := c.exports;
    FirstOut(free, a);
    var i := c.HandleBootstrap(1);
  }

  /**
   Joins compare export ids as recorded. When the export that a waiting part recorded is freed and its slot reused,
   two servers are taken for one: question 2 names server a, question 3 names server b, and the join succeeds.
   */
  method ReusedExport(a: nat, b: nat) returns (c: Conn, ghost k: nat)
    requires a != b
    ensures c.polite && k < |c.named| && c.named[k] == [Some(a), Some(b)]
    ensures c.log == [Capability(1, 0), JoinResult(2, 7, true, Some(0)), JoinResult(3, 7, true, None)]
  {
    hide Bag, SlotFor, NoSlotFor, Released, Bumped, Recorded, AllFreeIn, Resolve, Who;
    hide Accounted, ClaimsHosted, ExportTable, JoinTable, NamesHold, NamesFit, Half;
    ghost var free;
    c, free := Open(a);
    OnlyFirst(free, a);
    k := FirstPart(c, 0);
    Reuse(c, a, b, free);
    OnlyFirst(free, b);
    SecondPart(c, k, 0, 0);
  }

  /** The peer gives export 0 back, and the application exports another server. */
  method Reuse(c: Conn, a: nat, b: nat, ghost free: seq<Export>)
    requires c.Valid() && c.polite && AllFreeIn(free) && c.exports == free[0 := Live(1, a)] && c.ledger.peer[0] == 1
    modifies c`exports, c`ledger, c`polite, c`steady
    ensures c.Valid() && c.polite && c.exports == free[0 := Live(1, b)]
  {
    hide Bag, SlotFor, NoSlotFor, Released, Bumped, Recorded, AllFreeIn, Resolve, Who;
    hide Accounted, ClaimsHosted, ExportTable, JoinTable, NamesHold, NamesFit;
    OnlyFirst(free, a);
    c.HandleRelease(0, 1);
    FirstOut(free, b);
    var e := c.Export(b);
  }

  /**
   And when it is freed and the server exported again somewhere else, one server is taken for two, although no slot
   that was recorded is ever reused: questions 2 and 3 both name server a, and the join fails.
   */
  method MovedServer(x: nat, a: nat) returns (c: Conn, ghost k: nat)
    requires x != a
    ensures c.polite && k < |c.named| && c.named[k] == [Some(a), Some(a)]
    ensures c.log == [Capability(1, 0), Capability(4, 1), Capability(5, 0), JoinResult(2, 7, false, None),
      JoinResult(3, 7, false, None)]
  {
    hide Bag, SlotFor, NoSlotFor, Released, Bumped, Recorded, AllFreeIn, Resolve, Who;
    hide Accounted, ClaimsHosted, ExportTable, JoinTable, NamesHold, NamesFit, Half, AllUnusedIn;
    hide Conn.Valid;
    ghost var free;
    c, free := Open(x);
    TwoOut(c, x, a, free);
    SecondOut(free, x, a);
    k := FirstPart(c, 1);
    OneIn(c, x, a, free);
    OnlyFirst(free, a);
    SecondPart(c, k, 1, 0);
  }

  /** Server x is export 0 and server a is export 1, both held by the peer. */
  method TwoOut(c: Conn, x: nat, a: nat, ghost free: seq<Export>)
    requires c.Valid() && c.polite && AllFreeIn(free) && x != a && c.exports == free[0 := Live(1, x)]
    requires c.ledger.peer[0] == 1 && c.ledger.peer[1] == 0
    modifies c`exports, c`ledger, c`log, c`bootstrap
    ensures c.Valid() && c.log == old(c.log) + [Capability(4, 1)] && c.bootstrap == Some(a)
    ensures c.exports == free[0 := Live(1, x)][1 := Live(1, a)] && c.ledger.peer[0] == c.ledger.peer[1] == 1
  {
    hide Bag, SlotFor, NoSlotFor, Released, Bumped, Resolve, Who, AllFreeIn;
    hide Accounted, ClaimsHosted, ExportTable, JoinTable, NamesHold, NamesFit;
    SecondOut(free, x, a);
    c.SetBootstrap(Some(a));
    var i := c.HandleBootstrap(4);
  }

  /** The peer gives both back and asks for server a again. */
  method OneIn(c: Conn, x: nat, a: nat, ghost free: seq<Export>)
    requires c.Valid() && c.polite && AllFreeIn(free) && x != a && c.bootstrap == Some(a)
    requires c.exports == free[0 := Live(1, x)][1 := Live(1, a)] && c.ledger.peer[0] == c.ledger.peer[1] == 1
    modifies c`exports, c`ledger, c`polite, c`steady, c`log
    ensures c.Valid() && c.polite && c.exports == free[0 := Live(1, a)] && c.log == old(c.log) + [Capability(5, 0)]
  {
    hide Bag, SlotFor, NoSlotFor, Released, Bumped, Recorded, AllFreeIn, Resolve, Who;
    hide Accounted, ClaimsHosted, ExportTable, JoinTable, NamesHold, NamesFit;
    SecondOut(free, x, a);
    c.HandleRelease(1, 1);
    OnlyFirst(free, x);
    c.HandleRelease(0, 1);
    FirstOut(free, a);
    var i := c.HandleBootstrap(5);
  }
}

/**
 The visited set of the graph walks: an open-addressing hash table with linear probing that has to
 behave like a map from object keys to marks. Everything is proved for an arbitrary hash function.
 The capacity is 64 * 2^k, so masking with capacity - 1 is taking the remainder.
 */
module VisitedSet {
  /** CAPN_V_PATH: the object is being visited; CAPN_V_DONE: it has been left. */
  datatype Mark = Path | Done

  datatype Slot<K> = Empty | Used(key: K, mark: Mark)

  /** Outcomes of entering: a cycle, a new visit, or an object that was left before. */
  datatype Entry = Cycle | Fresh | Known

  function Count<K>(t: seq<Slot<K>>): (n: nat)
    ensures n <= |t|
  {
    if t == [] then 0 else Count(t[..|t| - 1]) + if t[|t| - 1].Used? then 1 else 0
  }

  lemma {:induction false} CountUpdate<K>(t: seq<Slot<K>>, i: nat, s: Slot<K>)
    requires i < |t| && s.Used?
    ensures Count(t[i := s]) == Count(t) + if t[i].Used? then 0 else 1
  {
    var m := |t| - 1;
    var u := t[i := s];
    if i < m {
      CountUpdate(t[..m], i, s);
      assert u[..m] == t[..m][i := s];
    } else {
      assert u[..m] == t[..m];
    }
  }

  lemma {:induction false} SomeEmpty<K>(t: seq<Slot<K>>) returns (i: nat)
    requires Count(t) < |t|
    ensures i < |t| && t[i].Empty?
  {
    var m := |t| - 1;
    if t[m].Empty? {
      i := m;
    } else {
      i := SomeEmpty(t[..m]);
    }
  }

  lemma {:induction false} CountNone<K>(t: seq<Slot<K>>)
    requires forall i | 0 <= i < |t| :: t[i].Empty?
    ensures Count(t) == 0
  {
    if t != [] {
      CountNone(t[..|t| - 1]);
    }
  }

  /** How many steps a probe takes from `h` to reach slot i of a table of n slots. */
  function Steps(h: nat, i: nat, n: nat): (d: nat)
    requires h < n && i < n
    ensures d < n
  {
    if i >= h then i - h else i + n - h
  }

  /** The slot a probe from `h` looks at after d steps. */
  function Probe(h: nat, d: nat, n: nat): (i: nat)
    requires h < n && d < n
    ensures i < n && Steps(h, i, n) == d
  {
    if h + d < n then h + d else h + d - n
  }

  // ---- the table as a value ---------------------------------------------------------------

  /** Every slot a probe from `h` passes on its way to slot i is in use. */
  ghost predicate Reachable<K>(t: seq<Slot<K>>, h: nat, i: nat)
    requires h < |t| && i < |t|
  {
    forall d | 0 <= d < Steps(h, i, |t|) :: t[Probe(h, d, |t|)].Used?
  }

  ghost predicate Placed<K>(t: seq<Slot<K>>, hash: K -> nat) {
    forall i | 0 <= i < |t| && t[i].Used? :: Reachable(t, hash(t[i].key) % |t|, i)
  }

  ghost predicate Unique<K>(t: seq<Slot<K>>) {
    forall i, j | 0 <= i < |t| && 0 <= j < |t| && t[i].Used? && t[j].Used? && t[i].key == t[j].key :: i == j
  }

  ghost predicate WellPlaced<K>(t: seq<Slot<K>>, hash: K -> nat) {
    |t| > 0 && Placed(t, hash) && Unique(t)
  }

  /** The map that the table stands for. */
  ghost function Marks<K>(t: seq<Slot<K>>): map<K, Mark> {
    if t == [] then map[]
    else
      var s := t[|t| - 1];
      if s.Used? then Marks(t[..|t| - 1])[s.key := s.mark] else Marks(t[..|t| - 1])
  }

  lemma {:induction false} MarksAt<K>(t: seq<Slot<K>>, i: nat)
    requires Unique(t) && i < |t| && t[i].Used?
    ensures t[i].key in Marks(t) && Marks(t)[t[i].key] == t[i].mark
  {
    var m := |t| - 1;
    if i < m {
      MarksAt(t[..m], i);
      assert t[..m][i] == t[i];
    }
  }

  lemma {:induction false} MarksFrom<K>(t: seq<Slot<K>>, k: K) returns (i: nat)
    requires k in Marks(t)
    ensures i < |t| && t[i].Used? && t[i].key == k
  {
    var m := |t| - 1;
    if t[m].Used? && t[m].key == k {
      i := m;
    } else {
      i := MarksFrom(t[..m], k);
    }
  }

  /** Writing slot i for key k, where k was or into an empty slot, updates the map. */
  lemma MarksUpdate<K>(t: seq<Slot<K>>, i: nat, k: K, mark: Mark)
    requires Unique(t) && i < |t|
    requires if t[i].Used? then t[i].key == k else k !in Marks(t)
    ensures Unique(t[i := Used(k, mark)])
    ensures Marks(t[i := Used(k, mark)]) == Marks(t)[k := mark]
  {
    hide Marks;
    var u := t[i := Used(k, mark)];
    forall a, b | 0 <= a < |u| && 0 <= b < |u| && u[a].Used? && u[b].Used? && u[a].key == u[b].key ensures a == b {
      if a != b && (a == i || b == i) {
        var o := if a == i then b else a;
        MarksAt(t, o);
      }
    }
    forall x | x in Marks(u) ensures x in Marks(t)[k := mark] && Marks(u)[x] == Marks(t)[k := mark][x] {
      var a := MarksFrom(u, x);
      MarksAt(u, a);
      if a != i {
        MarksAt(t, a);
      }
    }
    forall x | x in Marks(t)[k := mark] ensures x in Marks(u) {
      if x == k {
        MarksAt(u, i);
      } else {
        var a := MarksFrom(t, x);
        assert u[a] == t[a];
        MarksAt(u, a);
      }
    }
  }

  /** A write into the slot that a probe for k stops at keeps every probe path intact. */
  lemma PlacedUpdate<K>(t: seq<Slot<K>>, hash: K -> nat, i: nat, k: K, mark: Mark)
    requires |t| > 0 && Placed(t, hash) && i < |t| && Reachable(t, hash(k) % |t|, i)
    ensures Placed(t[i := Used(k, mark)], hash)
  {
    var u := t[i := Used(k, mark)];
    forall j | 0 <= j < |u| && u[j].Used? ensures Reachable(u, hash(u[j].key) % |u|, j) {
      var h := hash(u[j].key) % |u|;
      assert Reachable(t, h, j);
      forall d | 0 <= d < Steps(h, j, |u|) ensures u[Probe(h, d, |u|)].Used? {
        assert t[Probe(h, d, |t|)].Used?;
      }
    }
  }

  /** A probe that meets an empty slot has shown that its key is not in the table. */
  lemma ProbeMisses<K>(t: seq<Slot<K>>, hash: K -> nat, k: K, d: nat)
    requires WellPlaced(t, hash) && d < |t| && t[Probe(hash(k) % |t|, d, |t|)].Empty?
    requires forall e | 0 <= e < d :: t[Probe(hash(k) % |t|, e, |t|)].Used? && t[Probe(hash(k) % |t|, e, |t|)].key != k
    ensures k !in Marks(t)
  {
    if k in Marks(t) {
      var j := MarksFrom(t, k);
      var h := hash(k) % |t|;
      ProbeReaches(h, j, |t|);
    }
  }

  lemma ProbeReaches(h: nat, j: nat, n: nat)
    requires h < n && j < n
    ensures Probe(h, Steps(h, j, n), n) == j
  {
  }

  // ---- the table in memory ----------------------------------------------------------------

  class VSet<K(==)> {
    const hash: K -> nat
    var tab: array<Slot<K>>
    var cap: nat
    var n: nat

    ghost predicate Valid()
      reads this, tab
    {
      && cap == tab.Length >= 64
      && n == Count(tab[..]) && n < cap && 3 * n <= 2 * cap + 3
      && WellPlaced(tab[..], hash)
    }

    ghost function Map(): map<K, Mark>
      reads this, tab
    {
      Marks(tab[..])
    }

    /** vset_init */
    constructor (hash: K -> nat)
      ensures Valid() && Map() == map[] && fresh(tab) && this.hash == hash
    {
      this.hash := hash;
      cap, n := 64, 0;
      tab := new Slot<K>[64](_ => Empty);
      new;
      EmptyTable(tab[..], hash);
    }

    /** vset_find with insert set: the slot that holds k, or the empty one where it belongs. */
    method Find(k: K) returns (i: nat)
      requires cap == tab.Length > 0 && Count(tab[..]) < cap && WellPlaced(tab[..], hash)
      ensures i < cap && Reachable(tab[..], hash(k) % cap, i)
      ensures tab[i].Used? ==> tab[i].key == k
      ensures tab[i].Used? <==> k in Map()
      ensures tab[i].Used? ==> Map()[k] == tab[i].mark
    {
      hide Marks, Count;
      ghost var t := tab[..];
      ghost var e := SomeEmpty(t);
      ghost var h := hash(k) % cap;
      ghost var d := 0;
      i := hash(k) % cap;
      while true
        invariant 0 <= d <= Steps(h, e, cap) && i == Probe(h, d, cap)
        invariant forall c | 0 <= c < d :: t[Probe(h, c, cap)].Used? && t[Probe(h, c, cap)].key != k
        decreases cap - d
      {
        if tab[i].Empty? {
          ProbeMisses(t, hash, k, d);
          return;
        }
        if tab[i].key == k {
          MarksAt(t, i);
          return;
        }
        assert t[i].Used? && t[e].Empty?;
        assert d == Steps(h, e, cap) ==> i == e;
        i := if i + 1 == cap then 0 else i + 1;
        d := d + 1;
      }
    }

    /** Stores a mark for k in the slot that Find returned. */
    method Put(i: nat, k: K, mark: Mark)
      requires cap == tab.Length > 0 && n == Count(tab[..]) && WellPlaced(tab[..], hash)
      requires i < cap && Reachable(tab[..], hash(k) % cap, i)
      requires if tab[i].Used? then tab[i].key == k else k !in Map()
      modifies this`n, tab
      ensures WellPlaced(tab[..], hash) && Map() == old(Map())[k := mark] && n == Count(tab[..])
      ensures n == old(n) + if old(tab[i].Used?) then 0 else 1
    {
      hide Marks, Count, Reachable, Placed, Unique;
      ghost var t := tab[..];
      MarksUpdate(t, i, k, mark);
      PlacedUpdate(t, hash, i, k, mark);
      CountUpdate(t, i, Used(k, mark));
      if tab[i].Empty? {
        n := n + 1;
      }
      tab[i] := Used(k, mark);
      assert tab[..] == t[i := Used(k, mark)];
    }

    /** vset_grow: twice the room, the same map. */
    method Grow()
      requires Valid()
      modifies this`tab, this`cap, this`n
      ensures Valid() && fresh(tab) && Map() == old(Map())
      ensures cap == 2 * old(cap) && n == old(n)
    {
      hide Marks, Count, Reachable, Placed, Unique;
      ghost var t := tab[..];
      var was, oldcap := tab, cap;
      cap := 2 * cap;
      tab := new Slot<K>[cap](_ => Empty);
      n := 0;
      EmptyTable(tab[..], hash);
      NoSlots(t);
      for i := 0 to oldcap
        invariant tab.Length == cap == 2 * oldcap && fresh(tab) && was[..] == t && n <= i
        invariant WellPlaced(tab[..], hash) && n == Count(tab[..]) == Count(t[..i]) && Map() == Marks(t[..i])
      {
        PrefixStep(t, i);
        if was[i].Used? {
          var j := Find(was[i].key);
          Put(j, was[i].key, was[i].mark);
        }
      }
      assert t[..oldcap] == t;
    }

    /** The common start of vset_enter and vset_reenter: make room, then find the slot. */
    method Locate(k: K) returns (i: nat)
      requires Valid()
      modifies this`tab, this`cap, this`n
      ensures Valid() && (tab == old(tab) || fresh(tab)) && Map() == old(Map()) && n == old(n) && 3 * n <= 2 * cap
      ensures i < cap && Reachable(tab[..], hash(k) % cap, i)
      ensures tab[i].Used? ==> tab[i].key == k
      ensures tab[i].Used? <==> k in Map()
      ensures tab[i].Used? ==> Map()[k] == tab[i].mark
    {
      hide Marks, Count, Reachable, Placed, Unique;
      if n * 3 > cap * 2 {
        Grow();
      }
      i := Find(k);
    }

    /** vset_enter: an object on the path is a cycle, one that was left stays as it is, a new one joins the path. */
    method Enter(k: K) returns (e: Entry)
      requires Valid()
      modifies this`tab, this`cap, this`n, tab
      ensures Valid() && (tab == old(tab) || fresh(tab))
      ensures e == if k !in old(Map()) then Fresh else if old(Map())[k] == Path then Cycle else Known
      ensures Map() == if e == Fresh then old(Map())[k := Path] else old(Map())
    {
      hide Marks, Count, Reachable, Placed, Unique;
      var i := Locate(k);
      if tab[i] == Used(k, Path) {
        return Cycle;
      }
      if tab[i] == Used(k, Done) {
        return Known;
      }
      Put(i, k, Path);
      return Fresh;
    }

    /** vset_reenter: as vset_enter, but an object that was left is visited again. */
    method Reenter(k: K) returns (e: Entry)
      requires Valid()
      modifies this`tab, this`cap, this`n, tab
      ensures Valid() && (tab == old(tab) || fresh(tab))
      ensures e == if k in old(Map()) && old(Map())[k] == Path then Cycle else Fresh
      ensures Map() == if e == Fresh then old(Map())[k := Path] else old(Map())
    {
      hide Marks, Count, Reachable, Placed, Unique;
      var i := Locate(k);
      if tab[i] == Used(k, Path) {
        return Cycle;
      }
      Put(i, k, Path);
      return Fresh;
    }

    /** vset_leave */
    method Leave(k: K)
      requires Valid()
      modifies this`n, tab
      ensures Valid()
      ensures Map() == if k in old(Map()) then old(Map())[k := Done] else old(Map())
    {
      hide Marks, Count, Reachable, Placed, Unique;
      var i := Find(k);
      if tab[i].Used? {
        Put(i, k, Done);
      }
    }
  }

  lemma NoSlots<K>(t: seq<Slot<K>>)
    ensures Count(t[..0]) == 0 && Marks(t[..0]) == map[]
  {
  }

  /** Copying slot i takes the map and the count of the first i slots to those of the first i + 1. */
  lemma PrefixStep<K>(t: seq<Slot<K>>, i: nat)
    requires i < |t| && Unique(t)
    ensures Count(t[..i + 1]) == Count(t[..i]) + if t[i].Used? then 1 else 0
    ensures Marks(t[..i + 1]) == if t[i].Used? then Marks(t[..i])[t[i].key := t[i].mark] else Marks(t[..i])
    ensures t[i].Used? ==> t[i].key !in Marks(t[..i])
    ensures Count(t[..i + 1]) <= i + 1
  {
    assert t[..i + 1][..i] == t[..i];
    if t[i].Used? && t[i].key in Marks(t[..i]) {
      var j := MarksFrom(t[..i], t[i].key);
    }
  }

  lemma EmptyTable<K>(t: seq<Slot<K>>, hash: K -> nat)
    requires |t| > 0 && forall i | 0 <= i < |t| :: t[i].Empty?
    ensures Count(t) == 0 && Marks(t) == map[] && WellPlaced(t, hash)
  {
    CountNone(t);
    hide Marks;
    if k :| k in Marks(t) {
      var i := MarksFrom(t, k);
    }
  }
}

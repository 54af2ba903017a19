/** The address manager's own consistency check, and the operations in any order. */
module AddrCheck {
  import opened AddrTables
  import opened Basics
  import opened AddressManager

  // ----- What the self-check demands -----

  /** Every slot is one of the table. */
  ghost predicate InGrid(s: State) {
    && (forall t :: t in s.tried ==> t.bucket < TRIED_BUCKET_COUNT && t.pos < BUCKET_SIZE)
    && (forall t :: t in s.news ==> t.bucket < NEW_BUCKET_COUNT && t.pos < BUCKET_SIZE)
  }

  /** The number an address leads to; looking up one that is missing makes it lead to 0. */
  function Lookup(byAddr: map<nat, int>, ip: nat): (id: int) {
    if ip in byAddr then byAddr[ip] else 0
  }

  /** The code for one entry. */
  function Fault(s: State, n: int): (code: int)
    requires n in s.info
  {
    var a := s.info[n];
    if a.inTried && a.lastSuccess == 0 then -1
    else if a.inTried && a.refCount != 0 then -2
    else if !a.inTried && (a.refCount < 0 || a.refCount > NEW_BUCKETS_PER_ADDRESS) then -3
    else if !a.inTried && a.refCount == 0 then -4
    else if Lookup(s.byAddr, a.addr.ip) != n then -5
    else if a.randomPos < 0 || a.randomPos >= |s.random| || s.random[a.randomPos] != n then -14
    else if a.lastTry < 0 then -6
    else if a.lastSuccess < 0 then -8
    else 0
  }

  /** The last connection to every tried entry was a success at some time. */
  ghost predicate SuccessKnown(info: Infos) {
    forall id :: id in info && info[id].inTried ==> info[id].lastSuccess != 0
  }

  ghost predicate EntriesInRange(info: Infos) {
    forall id :: id in info ==>
      && info[id].lastTry >= 0 && info[id].lastSuccess >= 0
      && (if info[id].inTried then info[id].refCount == 0 else 1 <= info[id].refCount <= NEW_BUCKETS_PER_ADDRESS)
  }

  ghost predicate AddrsLead(s: State) {
    forall id :: id in s.info ==> Lookup(s.byAddr, s.info[id].addr.ip) == id
  }

  /** All that the self-check establishes, apart from the last success and the key. */
  ghost predicate Sound(s: State) {
    && AddrsLead(s) && EntriesInRange(s.info)
    && RandomOk(s.info, s.random) && NewOk(s.h, s.key, s.info, s.news) && TriedOk(s.h, s.key, s.info, s.tried)
    && s.nTried == |TriedIds(s.info)| && s.nNew == |NewIds(s.info)|
  }

  /** What it misses: an address that leads nowhere, a number out of range, and a missing address of number 0. */
  lemma ConsistentIs(s: State)
    ensures Consistent(s) <==>
            && Sound(s)
            && (forall ip :: ip in s.byAddr ==> s.byAddr[ip] in s.info && s.info[s.byAddr[ip]].addr.ip == ip)
            && (forall id :: id in s.info ==> 0 <= id < s.nIdCount)
            && (0 in s.info ==> s.info[0].addr.ip in s.byAddr)
  {
  }

  // ----- The checker -----

  /** Runs the checks of the debug build on any state. */
  method Check(s: State) returns (code: int)
    requires InGrid(s)
    ensures code == 0 <==> Sound(s) && SuccessKnown(s.info) && s.key != 0
    ensures Sound(s) ==> code == if !SuccessKnown(s.info) then -1 else if s.key == 0 then -16 else 0
  {
    hide RandomOk, NewOk, TriedOk, InGrid, NewTable;
    Sizes(s);
    if |s.random| != s.nTried + s.nNew {
      return -7;
    }
    var setTried, mapNew;
    code, setTried, mapNew := CheckEntries(s);
    SoundEntries(s);
    if code != 0 {
      return code;
    }
    if |setTried| != s.nTried {
      return -9;
    }
    CountedSize(s.info, mapNew);
    if |mapNew| != s.nNew {
      return -10;
    }
    NewTableIs(s);
    var c;
    c, setTried := CheckTried(s, setTried);
    if c != 0 {
      return c;
    }
    c, mapNew := CheckNew(s, mapNew);
    if c != 0 {
      return c;
    }
    if setTried != {} {
      return -13;
    }
    if mapNew != map[] {
      return -15;
    }
    if s.key == 0 {
      return -16;
    }
    AllOrdered(s);
    return 0;
  }

  lemma Sizes(s: State)
    ensures |TriedIds(s.info)| + |NewIds(s.info)| == |s.info|
    ensures Sound(s) ==> |s.random| == s.nTried + s.nNew
  {
    var ids := s.info.Keys;
    assert ids == TriedIds(s.info) + NewIds(s.info);
    assert TriedIds(s.info) * NewIds(s.info) == {};
    if Sound(s) {
      assert Distinct(s.random) && forall i :: 0 <= i < |s.random| ==> s.random[i] in ids;
      assert forall id :: id in ids ==> id in s.random;
      DistinctSize(s.random, ids);
    }
  }

  /** No entry has a fault. */
  ghost predicate Faultless(s: State) {
    forall id :: id in s.info ==> Fault(s, id) == 0
  }

  lemma SoundEntries(s: State)
    ensures Faultless(s) ==> SuccessKnown(s.info) && AddrsLead(s) && EntriesInRange(s.info)
    ensures Sound(s) && SuccessKnown(s.info) ==> Faultless(s)
    ensures Sound(s) ==> forall id :: id in s.info ==> Fault(s, id) == 0 || Fault(s, id) == -1
    ensures (exists id :: id in s.info && Fault(s, id) == -1) ==> !SuccessKnown(s.info)
  {
    forall id | id in s.info && Fault(s, id) == 0
      ensures Lookup(s.byAddr, s.info[id].addr.ip) == id
    {
    }
    hide NewOk, TriedOk;
  }

  /** With as many places as entries, entries that stand where they say fill all places. */
  lemma AllOrdered(s: State)
    requires Faultless(s) && |s.random| == |s.info|
    ensures RandomOk(s.info, s.random)
  {
    var ids, members := s.info.Keys, Members(s.random);
    forall id | id in ids ensures id in members {
      assert Fault(s, id) == 0;
    }
    MembersSize(s.random);
    SubsetSize(ids, members);
    assert members == ids + (members - ids);
    assert |members - ids| == 0;
    forall i | 0 <= i < |s.random| ensures s.random[i] in s.info && s.info[s.random[i]].randomPos == i {
      assert s.random[i] in members;
      var id := s.random[i];
      assert Fault(s, id) == 0;
    }
    forall id | id in s.info ensures 0 <= s.info[id].randomPos < |s.random| && s.random[s.info[id].randomPos] == id {
      assert Fault(s, id) == 0;
    }
  }

  ghost function Members(v: seq<int>): (r: set<int>) {
    set x | x in v
  }

  lemma {:induction false} MembersSize(v: seq<int>)
    ensures |Members(v)| <= |v|
    ensures |Members(v)| == |v| ==> Distinct(v)
  {
    if v != [] {
      var n := |v| - 1;
      MembersSize(v[..n]);
      assert v == v[..n] + [v[n]];
      assert Members(v) == Members(v[..n]) + {v[n]};
    }
  }

  /** The reference counts of the entries outside the tried table, except those in `todo`. */
  ghost predicate Counted(info: Infos, mapNew: map<int, int>, todo: set<int>) {
    mapNew.Keys == NewIds(info) - todo && forall id :: id in mapNew ==> mapNew[id] == info[id].refCount
  }

  /** Answers the code of an entry with a fault, or collects the two sides. */
  method CheckEntries(s: State) returns (code: int, setTried: set<int>, mapNew: map<int, int>)
    ensures code == 0 <==> Faultless(s)
    ensures code != 0 ==> exists id :: id in s.info && Fault(s, id) == code
    ensures code == 0 ==> setTried == TriedIds(s.info) && Counted(s.info, mapNew, {})
  {
    hide Fault;
    setTried, mapNew := {}, map[];
    var todo := s.info.Keys;
    while todo != {}
      invariant todo <= s.info.Keys
      invariant forall id :: id in s.info && id !in todo ==> Fault(s, id) == 0
      invariant setTried == TriedIds(s.info) - todo
      invariant Counted(s.info, mapNew, todo)
      decreases |todo|
    {
      SomeNumber(todo);
      var n :| n in todo;
      code := Fault(s, n);
      if code != 0 {
        return code, {}, map[];
      }
      if s.info[n].inTried {
        setTried := setTried + {n};
      } else {
        mapNew := mapNew[n := s.info[n].refCount];
      }
      todo := todo - {n};
    }
    return 0, setTried, mapNew;
  }

  lemma CountedSize(info: Infos, mapNew: map<int, int>)
    requires Counted(info, mapNew, {})
    ensures |mapNew| == |NewIds(info)|
  {
    assert mapNew.Keys == NewIds(info);
  }

  // ----- The tried table -----

  /** Slot `t` comes before row `n`, position `i`. */
  predicate Passed(t: Slot, n: nat, i: nat) {
    t.bucket < n || (t.bucket == n && t.pos < i)
  }

  /** The slot holds a tried entry that belongs there. */
  ghost predicate Seated(s: State, t: Slot) {
    t in s.tried ==>
      s.tried[t] in s.info && s.info[s.tried[t]].inTried && t == TriedSlot(s.h, s.key, s.info[s.tried[t]].addr)
  }

  ghost predicate SeatedBefore(s: State, n: nat, i: nat) {
    forall t :: t in s.tried && Passed(t, n, i) ==> Seated(s, t)
  }

  /** The tried entries not yet met in their own slot. */
  ghost function TriedLeft(s: State, n: nat, i: nat): (r: set<int>) {
    set id | id in TriedIds(s.info) && !Met(s, id, n, i)
  }

  ghost predicate Met(s: State, id: int, n: nat, i: nat)
    requires id in s.info
  {
    var t := TriedSlot(s.h, s.key, s.info[id].addr);
    Passed(t, n, i) && t in s.tried && s.tried[t] == id
  }

  lemma TriedStep(s: State, n: nat, i: nat)
    ensures var t := Slot(n, i);
            && (t !in s.tried ==> TriedLeft(s, n, i + 1) == TriedLeft(s, n, i))
            && (t in s.tried && Seated(s, t) ==>
                  s.tried[t] in TriedLeft(s, n, i) && TriedLeft(s, n, i + 1) == TriedLeft(s, n, i) - {s.tried[t]})
            && (SeatedBefore(s, n, i + 1) <==> SeatedBefore(s, n, i) && Seated(s, t))
  {
    var t := Slot(n, i);
    forall id | id in TriedIds(s.info)
      ensures Met(s, id, n, i + 1) <==> Met(s, id, n, i) || (t == TriedSlot(s.h, s.key, s.info[id].addr) && t in s.tried && s.tried[t] == id)
    {
    }
    if t in s.tried && Seated(s, t) {
      assert s.tried[t] in TriedIds(s.info);
      SameMembers(TriedLeft(s, n, i + 1), TriedLeft(s, n, i) - {s.tried[t]});
    }
    if t !in s.tried {
      SameMembers(TriedLeft(s, n, i + 1), TriedLeft(s, n, i));
    }
  }

  lemma TriedRow(s: State, n: nat)
    requires InGrid(s)
    ensures TriedLeft(s, n, BUCKET_SIZE) == TriedLeft(s, n + 1, 0) && TriedLeft(s, 0, 0) == TriedIds(s.info)
    ensures SeatedBefore(s, n, BUCKET_SIZE) <==> SeatedBefore(s, n + 1, 0)
    ensures SeatedBefore(s, 0, 0)
  {
    SameMembers(TriedLeft(s, n, BUCKET_SIZE), TriedLeft(s, n + 1, 0));
    SameMembers(TriedLeft(s, 0, 0), TriedIds(s.info));
  }

  lemma AllSeated(s: State)
    requires InGrid(s)
    ensures TriedOk(s.h, s.key, s.info, s.tried) <==>
            SeatedBefore(s, TRIED_BUCKET_COUNT, 0) && TriedLeft(s, TRIED_BUCKET_COUNT, 0) == {}
  {
    var left := TriedLeft(s, TRIED_BUCKET_COUNT, 0);
    forall id | id in TriedIds(s.info)
      ensures id !in left <==> (var t := TriedSlot(s.h, s.key, s.info[id].addr); t in s.tried && s.tried[t] == id)
    {
    }
    SomeNumber(left);
    if SeatedBefore(s, TRIED_BUCKET_COUNT, 0) && left == {} {
      forall t | t in s.tried ensures Seated(s, t) { assert Passed(t, TRIED_BUCKET_COUNT, 0); }
      forall id | id in s.info && s.info[id].inTried
        ensures var t := TriedSlot(s.h, s.key, s.info[id].addr); t in s.tried && s.tried[t] == id
      {
        assert id in TriedIds(s.info);
      }
    }
  }

  lemma NotSeated(s: State, t: Slot)
    requires InGrid(s) && !Seated(s, t)
    ensures !TriedOk(s.h, s.key, s.info, s.tried)
  {
  }

  /** Every filled slot must hold a tried entry not met before, at its own place. */
  method CheckTried(s: State, all: set<int>) returns (code: int, setTried: set<int>)
    requires InGrid(s) && all == TriedIds(s.info)
    ensures code == 0 && setTried == {} <==> TriedOk(s.h, s.key, s.info, s.tried)
  {
    setTried := all;
    TriedRow(s, 0);
    AllSeated(s);
    hide TriedLeft, SeatedBefore, TriedOk, InGrid;
    for n := 0 to TRIED_BUCKET_COUNT
      invariant setTried == TriedLeft(s, n, 0) && SeatedBefore(s, n, 0)
    {
      for i := 0 to BUCKET_SIZE
        invariant setTried == TriedLeft(s, n, i) && SeatedBefore(s, n, i)
      {
        var t := Slot(n, i);
        TriedStep(s, n, i);
        if t in s.tried {
          var id := s.tried[t];
          if !Seated(s, t) { NotSeated(s, t); }
          if id !in setTried {
            return -11, setTried;
          }
          LeftKnown(s, id, n, i);
          var place := TriedSlot(s.h, s.key, s.info[id].addr);
          if place.bucket != n {
            return -17, setTried;
          }
          if place.pos != i {
            return -18, setTried;
          }
          setTried := setTried - {id};
        }
      }
      TriedRow(s, n);
    }
    code := 0;
  }

  lemma LeftKnown(s: State, id: int, n: nat, i: nat)
    requires id in TriedLeft(s, n, i)
    ensures id in s.info && s.info[id].inTried
  {
  }

  // ----- The new table -----

  /** The slot holds an entry outside the tried table that belongs there. */
  ghost predicate Belongs(s: State, t: Slot) {
    t in s.news ==>
      s.news[t] in s.info && !s.info[s.news[t]].inTried && t == NewSlot(s.h, s.key, s.info[s.news[t]].addr, t.bucket)
  }

  /** The part of the new table's order that the self-check establishes. */
  ghost predicate NewTable(s: State) {
    && (forall t :: t in s.news ==> Belongs(s, t))
    && (forall id :: id in NewIds(s.info) ==> s.info[id].refCount == |Refs(s.news, id)|)
  }

  lemma NewTableIs(s: State)
    requires InGrid(s) && EntriesInRange(s.info)
    ensures NewTable(s) <==> NewOk(s.h, s.key, s.info, s.news)
  {
    if NewTable(s) {
      forall id | id in s.info ensures s.info[id].refCount == |Refs(s.news, id)| {
        if s.info[id].inTried {
          forall t | t in s.news ensures s.news[t] != id { assert Belongs(s, t); }
          assert Refs(s.news, id) == {};
        }
      }
      assert forall t :: t in s.news ==> Belongs(s, t);
    }
    if NewOk(s.h, s.key, s.info, s.news) {
      forall t | t in s.news ensures Belongs(s, t) {
        assert t in Refs(s.news, s.news[t]);
      }
    }
  }

  /** The filled slots before row `n`, position `i`. */
  ghost function Done(s: State, n: nat, i: nat): (r: set<Slot>) {
    set t | t in s.news && Passed(t, n, i)
  }

  /** `mapNew` holds what is left of the reference counts after the slots `done`, all of them in order. */
  ghost predicate Uses(s: State, mapNew: map<int, int>, done: set<Slot>) {
    && (forall t :: t in done ==> t in s.news && Belongs(s, t))
    && (forall id :: id in mapNew ==> id in NewIds(s.info))
    && (forall id :: id in NewIds(s.info) ==> UsesOf(s, mapNew, done, id))
  }

  ghost predicate UsesOf(s: State, mapNew: map<int, int>, done: set<Slot>, id: int)
    requires id in s.info
  {
    var left := s.info[id].refCount - |Refs(s.news, id) * done|;
    left >= 0 && (id in mapNew <==> left > 0) && (id in mapNew ==> mapNew[id] == left)
  }

  lemma UsesNothing(s: State, all: map<int, int>)
    requires Counted(s.info, all, {}) && EntriesInRange(s.info)
    ensures Uses(s, all, {})
  {
    forall id | id in NewIds(s.info) ensures UsesOf(s, all, {}, id) {
      assert id in all.Keys;
      assert Refs(s.news, id) * {} == {};
    }
  }

  lemma UsesOne(s: State, mapNew: map<int, int>, done: set<Slot>, t: Slot)
    requires Uses(s, mapNew, done) && t in s.news && t !in done && Belongs(s, t) && s.news[t] in mapNew
    ensures Uses(s, Decreased(mapNew, s.news[t]), done + {t})
  {
    var after := Decreased(mapNew, s.news[t]);
    forall x | x in NewIds(s.info) ensures UsesOf(s, after, done + {t}, x) {
      UsesOneOf(s, mapNew, done, t, x);
    }
    hide UsesOf, Belongs;
  }

  /** One reference less; the last one takes the number out. */
  ghost function Decreased(mapNew: map<int, int>, id: int): (r: map<int, int>)
    requires id in mapNew
  {
    if mapNew[id] == 1 then mapNew - {id} else mapNew[id := mapNew[id] - 1]
  }

  lemma UsesOneOf(s: State, mapNew: map<int, int>, done: set<Slot>, t: Slot, x: int)
    requires x in s.info && UsesOf(s, mapNew, done, x) && t in s.news && t !in done && s.news[t] in mapNew
    ensures UsesOf(s, Decreased(mapNew, s.news[t]), done + {t}, x)
  {
    OneMore(Refs(s.news, x), done, t);
  }

  /** A slot whose entry has no reference left, or does not belong there, is a fault. */
  lemma UsedUp(s: State, mapNew: map<int, int>, done: set<Slot>, t: Slot)
    requires Uses(s, mapNew, done) && t in s.news && t !in done && (s.news[t] !in mapNew || !Belongs(s, t))
    ensures !NewTable(s)
  {
    var id := s.news[t];
    if NewTable(s) {
      assert Belongs(s, t);
      assert id in NewIds(s.info);
      assert UsesOf(s, mapNew, done, id);
      OneMore(Refs(s.news, id), done, t);
      SubsetSize(Refs(s.news, id) * (done + {t}), Refs(s.news, id));
      assert false;
    }
  }

  lemma UsesAll(s: State, mapNew: map<int, int>)
    requires Uses(s, mapNew, s.news.Keys)
    ensures mapNew == map[] <==> NewTable(s)
  {
    forall id | id in NewIds(s.info)
      ensures id in mapNew <==> s.info[id].refCount != |Refs(s.news, id)|
    {
      assert UsesOf(s, mapNew, s.news.Keys, id);
      assert Refs(s.news, id) * s.news.Keys == Refs(s.news, id);
    }
    if NewTable(s) {
      forall id: int ensures id !in mapNew {
      }
      SomeNumber(mapNew.Keys);
    }
  }

  lemma DoneStep(s: State, n: nat, i: nat)
    ensures Done(s, n, i + 1) == Done(s, n, i) + if Slot(n, i) in s.news then {Slot(n, i)} else {}
    ensures Slot(n, i) !in Done(s, n, i)
  {
  }

  lemma DoneRow(s: State, n: nat)
    requires InGrid(s)
    ensures Done(s, n, BUCKET_SIZE) == Done(s, n + 1, 0) && Done(s, 0, 0) == {}
    ensures Done(s, NEW_BUCKET_COUNT, 0) == s.news.Keys
  {
  }

  /** Every filled slot must hold an entry with a reference left, at its own place. */
  method CheckNew(s: State, all: map<int, int>) returns (code: int, mapNew: map<int, int>)
    requires InGrid(s) && Counted(s.info, all, {}) && EntriesInRange(s.info)
    ensures code == 0 && mapNew == map[] <==> NewTable(s)
  {
    mapNew := all;
    UsesNothing(s, all);
    DoneRow(s, 0);
    hide Done, Uses, NewTable, InGrid;
    for n := 0 to NEW_BUCKET_COUNT
      invariant Uses(s, mapNew, Done(s, n, 0))
    {
      for i := 0 to BUCKET_SIZE
        invariant Uses(s, mapNew, Done(s, n, i))
      {
        code, mapNew := CheckNewSlot(s, mapNew, n, i);
        if code != 0 {
          return;
        }
      }
      DoneRow(s, n);
    }
    UsesAll(s, mapNew);
    code := 0;
  }

  /** One slot: it must hold an entry with references left, at its own position. */
  method CheckNewSlot(s: State, counts: map<int, int>, n: nat, i: nat) returns (code: int, mapNew: map<int, int>)
    requires Uses(s, counts, Done(s, n, i))
    ensures code == 0 ==> Uses(s, mapNew, Done(s, n, i + 1))
    ensures code != 0 ==> !NewTable(s)
  {
    hide Done, Uses, NewTable;
    mapNew := counts;
    var t := Slot(n, i);
    ghost var done := Done(s, n, i);
    DoneStep(s, n, i);
    if t in s.news {
      var id := s.news[t];
      if id !in mapNew || !Belongs(s, t) { UsedUp(s, mapNew, done, t); }
      if id !in mapNew {
        return -12, mapNew;
      }
      CountsKnown(s, mapNew, done, id);
      if NewSlot(s.h, s.key, s.info[id].addr, n).pos != i {
        return -19, mapNew;
      }
      UsesOne(s, mapNew, done, t);
      mapNew := mapNew[id := mapNew[id] - 1];
      if mapNew[id] == 0 {
        mapNew := mapNew - {id};
      }
      assert mapNew == Decreased(counts, id);
    } else {
      assert done + {} == done;
    }
    code := 0;
  }

  lemma CountsKnown(s: State, mapNew: map<int, int>, done: set<Slot>, id: int)
    requires Uses(s, mapNew, done) && id in mapNew
    ensures id in s.info && !s.info[id].inTried
  {
  }

  // ----- Runs -----

  datatype Op =
    | OpAdd(addr: Service, time: int, services: bv64, source: nat, penalty: int)
    | OpGood(addr: Service, test: bool)
    | OpAttempt(addr: Service, countFailure: bool)
    | OpConnected(addr: Service)
    | OpGetAddr(draw: nat -> nat)
    | OpResolve
    | OpSelect(pick: int)
    | OpReset

  /** Operations in any order, each at its own time and with its own random draw, keep the manager valid; no tried
      slot that was filled is ever empty again. */
  method Run(m: AddrMan, ops: seq<(Op, nat, nat)>)
    requires m.Valid()
    modifies m
    ensures m.Valid() && Step(old(m.S()), m.S())
  {
    hide Between, CollisionsOk;
    AllNumbered(m.S());
    for i := 0 to |ops|
      invariant m.Valid() && Step(old(m.S()), m.S())
    {
      ghost var s := m.S();
      Apply(m, ops[i].0, ops[i].1, ops[i].2);
      StepTransitive(old(m.S()), s, m.S());
    }
  }

  method Apply(m: AddrMan, op: Op, now: nat, rnd: nat)
    requires m.Valid()
    modifies m
    ensures m.Valid() && Step(old(m.S()), m.S())
  {
    hide Between, CollisionsOk;
    match op
    case OpAdd(addr, time, services, source, penalty) =>
      var isNew := m.Add(addr, time, services, source, penalty, now, rnd);
    case OpGood(addr, test) =>
      ghost var lost := m.Good(addr, test, now, rnd);
    case OpAttempt(addr, countFailure) => m.Attempt(addr, countFailure, now);
    case OpConnected(addr) => m.Connected(addr, now);
    case OpGetAddr(draw) =>
      var v := m.GetAddr(draw, now);
    case OpResolve =>
      ghost var ids, states := m.ResolveCollisions(now, rnd);
    case OpSelect(pick) =>
      if m.triedCollisions == {} || pick in m.triedCollisions {
        var r := m.SelectTriedCollision(pick);
      }
    case OpReset => m.ResetCounters();
  }
}

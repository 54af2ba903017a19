/** The indexes of the address manager as values, the invariant that ties them together, and what each small
    change does to it. */
module AddrTables {

  // ----- Entries and hashing -----

  datatype Service = Service(ip: nat, port: nat)

  datatype AddrInfo = AddrInfo(
    addr: Service, time: int, services: bv64, source: nat,
    lastTry: int, lastCountAttempt: int, lastSuccess: int, attempts: int,
    refCount: int, inTried: bool, randomPos: int)

  const TRIED_BUCKET_COUNT: nat := 256
  const NEW_BUCKET_COUNT: nat := 1024
  const BUCKET_SIZE: nat := 64
  const NEW_BUCKETS_PER_ADDRESS: nat := 8

  /** The keyed hashes that choose buckets and positions, known only to be functions of these arguments. */
  datatype Hashes = Hashes(
    tried: (nat, Service) -> nat,
    source: (nat, Service, nat) -> nat,
    position: (nat, bool, nat, Service) -> nat)

  datatype Slot = Slot(bucket: nat, pos: nat)

  function TriedSlot(h: Hashes, key: nat, a: Service): (s: Slot) {
    var bucket := h.tried(key, a) % TRIED_BUCKET_COUNT;
    Slot(bucket, h.position(key, false, bucket, a) % BUCKET_SIZE)
  }

  function NewBucket(h: Hashes, key: nat, a: Service, source: nat): (b: nat)
    ensures b < NEW_BUCKET_COUNT
  {
    h.source(key, a, source) % NEW_BUCKET_COUNT
  }

  function NewSlot(h: Hashes, key: nat, a: Service, bucket: nat): (s: Slot) {
    Slot(bucket, h.position(key, true, bucket, a) % BUCKET_SIZE)
  }

  type Infos = map<int, AddrInfo>
  type Table = map<Slot, int>

  // ----- Sets of numbers -----

  ghost predicate Distinct<T>(s: seq<T>) {
    forall i, j :: 0 <= i < j < |s| ==> s[i] != s[j]
  }

  lemma SomeNumber(s: set<int>)
    ensures (forall id: int :: id !in s) ==> s == {}
  {
    if forall id: int :: id !in s { Within(s, {}); }
  }

  lemma Within(a: set<int>, b: set<int>)
    requires forall id: int :: id in a ==> id in b
    ensures a <= b
  {
    forall id | id in a ensures id in b {
    }
  }

  lemma SameMembers(a: set<int>, b: set<int>)
    requires forall id: int :: id in a <==> id in b
    ensures a == b
  {
    Within(a, b);
    Within(b, a);
  }

  lemma {:induction false} DistinctSize(ids: seq<int>, all: set<int>)
    requires Distinct(ids) && forall k :: 0 <= k < |ids| ==> ids[k] in all
    ensures |ids| <= |all|
    ensures (forall id :: id in all ==> id in ids) ==> |ids| == |all|
  {
    if ids == [] {
      SomeNumber(all);
    } else {
      var n := |ids| - 1;
      var last, rest := ids[n], ids[..n];
      assert ids == rest + [last];
      DistinctSize(rest, all - {last});
    }
  }

  // ----- The indexes -----

  /** Everything the invariant speaks of.  An empty slot of a table is one the map does not hold. */
  datatype State = State(
    h: Hashes, key: nat, info: Infos, byAddr: map<nat, int>, random: seq<int>,
    news: Table, tried: Table, nNew: int, nTried: int, nIdCount: nat)

  ghost predicate AddrOk(info: Infos, byAddr: map<nat, int>) {
    && (forall id :: id in info ==> info[id].addr.ip in byAddr && byAddr[info[id].addr.ip] == id)
    && (forall ip :: ip in byAddr ==> byAddr[ip] in info && info[byAddr[ip]].addr.ip == ip)
  }

  ghost predicate RandomOk(info: Infos, random: seq<int>) {
    && (forall id :: id in info ==> 0 <= info[id].randomPos < |random| && random[info[id].randomPos] == id)
    && (forall i :: 0 <= i < |random| ==> random[i] in info && info[random[i]].randomPos == i)
  }

  /** The new slots an entry holds. */
  ghost function Refs(news: Table, id: int): (s: set<Slot>) {
    set slot | slot in news && news[slot] == id
  }

  lemma OneMore(refs: set<Slot>, done: set<Slot>, t: Slot)
    requires t !in done
    ensures |refs * (done + {t})| == |refs * done| + if t in refs then 1 else 0
  {
    assert refs * (done + {t}) == refs * done + if t in refs then {t} else {};
  }

  ghost predicate NewOk(h: Hashes, key: nat, info: Infos, news: Table) {
    && (forall slot :: slot in news ==>
          news[slot] in info && slot.bucket < NEW_BUCKET_COUNT && slot == NewSlot(h, key, info[news[slot]].addr, slot.bucket))
    && (forall id :: id in info ==> info[id].refCount == |Refs(news, id)|)
    && (forall id :: id in info && info[id].inTried ==> info[id].refCount == 0)
  }

  ghost predicate TriedOk(h: Hashes, key: nat, info: Infos, tried: Table) {
    && (forall slot :: slot in tried ==>
          tried[slot] in info && info[tried[slot]].inTried && slot == TriedSlot(h, key, info[tried[slot]].addr))
    && (forall id :: id in info && info[id].inTried ==>
          TriedSlot(h, key, info[id].addr) in tried && tried[TriedSlot(h, key, info[id].addr)] == id)
  }

  ghost function TriedIds(info: Infos): (s: set<int>) {
    set id | id in info && info[id].inTried
  }

  ghost function NewIds(info: Infos): (s: set<int>) {
    set id | id in info && !info[id].inTried
  }

  ghost predicate EntriesOk(info: Infos, limbo: set<int>, nIdCount: nat) {
    forall id :: id in info ==>
      && 0 <= id < nIdCount && info[id].lastTry >= 0 && info[id].lastSuccess >= 0
      && info[id].refCount <= NEW_BUCKETS_PER_ADDRESS
      && (id in limbo ==> !info[id].inTried)
      && (!info[id].inTried && id !in limbo ==> info[id].refCount >= 1)
  }

  /** The invariant, where the entries in `limbo` are on their way between the tables and `uncounted` of the
      entries outside the tried table are not yet in `nNew`. */
  ghost predicate Between(s: State, limbo: set<int>, uncounted: int) {
    && AddrOk(s.info, s.byAddr)
    && RandomOk(s.info, s.random)
    && NewOk(s.h, s.key, s.info, s.news)
    && TriedOk(s.h, s.key, s.info, s.tried)
    && EntriesOk(s.info, limbo, s.nIdCount)
    && s.nTried == |TriedIds(s.info)|
    && s.nNew + uncounted == |NewIds(s.info)|
  }

  /** The whole consistency check of the address manager, without its clause on the last success. */
  ghost predicate Consistent(s: State) {
    Between(s, {}, 0)
  }

  // ----- Changes that leave some of the indexes alone -----

  ghost predicate SameIds(a: Infos, b: Infos) {
    a.Keys == b.Keys
  }

  ghost predicate SameAddrs(a: Infos, b: Infos) {
    SameIds(a, b) && forall id :: id in a ==> a[id].addr == b[id].addr
  }

  ghost predicate SameSides(a: Infos, b: Infos) {
    SameAddrs(a, b) && forall id :: id in a ==> a[id].inTried == b[id].inTried
  }

  ghost predicate SameRefs(a: Infos, b: Infos) {
    SameSides(a, b) && forall id :: id in a ==> a[id].refCount == b[id].refCount
  }

  ghost predicate SameOrder(a: Infos, b: Infos) {
    SameIds(a, b) && forall id :: id in a ==> a[id].randomPos == b[id].randomPos
  }

  lemma SidesWithin(a: Infos, b: Infos)
    requires SameSides(a, b)
    ensures SameSides(b, a) && TriedIds(a) <= TriedIds(b) && NewIds(a) <= NewIds(b)
  {
    forall id | id in b ensures a[id].addr == b[id].addr && a[id].inTried == b[id].inTried {
      assert id in a.Keys;
    }
    forall id | id in TriedIds(a) ensures id in TriedIds(b) {
      assert id in b.Keys && b[id].inTried;
    }
    forall id | id in NewIds(a) ensures id in NewIds(b) {
      assert id in b.Keys && !b[id].inTried;
    }
  }

  lemma KeepSides(h: Hashes, key: nat, a: Infos, b: Infos, tried: Table)
    requires SameSides(a, b)
    ensures TriedIds(a) == TriedIds(b) && NewIds(a) == NewIds(b)
    ensures TriedOk(h, key, a, tried) ==> TriedOk(h, key, b, tried)
  {
    SidesWithin(a, b);
    SidesWithin(b, a);
    if TriedOk(h, key, a, tried) {
      forall id | id in b && b[id].inTried
        ensures TriedSlot(h, key, b[id].addr) in tried && tried[TriedSlot(h, key, b[id].addr)] == id
      {
        assert id in a.Keys;
      }
      forall slot | slot in tried
        ensures tried[slot] in b && b[tried[slot]].inTried && slot == TriedSlot(h, key, b[tried[slot]].addr)
      {
        var id := tried[slot];
        assert id in a && a[id].addr == b[id].addr && a[id].inTried == b[id].inTried;
      }
    }
  }

  lemma KeepNewTable(h: Hashes, key: nat, a: Infos, b: Infos, news: Table)
    requires SameRefs(a, b) && NewOk(h, key, a, news)
    ensures NewOk(h, key, b, news)
  {
    forall slot | slot in news
      ensures news[slot] in b && slot == NewSlot(h, key, b[news[slot]].addr, slot.bucket)
    {
      var id := news[slot];
      assert id in a && a[id].addr == b[id].addr;
    }
    forall id | id in b ensures b[id].refCount == |Refs(news, id)| && (b[id].inTried ==> b[id].refCount == 0) {
      assert id in a.Keys;
    }
  }

  /** A change of statistics only. */
  lemma KeepAll(s: State, b: Infos, limbo: set<int>, uncounted: int)
    requires Between(s, limbo, uncounted)
    requires SameRefs(s.info, b) && SameOrder(s.info, b) && EntriesOk(b, limbo, s.nIdCount)
    ensures Between(s.(info := b), limbo, uncounted)
  {
    KeepNewTable(s.h, s.key, s.info, b, s.news);
    KeepSides(s.h, s.key, s.info, b, s.tried);
  }

  /** A change of the random order only. */
  lemma KeepRefs(s: State, b: Infos, random: seq<int>, limbo: set<int>, uncounted: int)
    requires Between(s, limbo, uncounted)
    requires SameRefs(s.info, b) && RandomOk(b, random) && EntriesOk(b, limbo, s.nIdCount)
    ensures Between(s.(info := b, random := random), limbo, uncounted)
  {
    KeepNewTable(s.h, s.key, s.info, b, s.news);
    KeepSides(s.h, s.key, s.info, b, s.tried);
  }

  /** A change of the new table only. */
  lemma KeepTried(s: State, b: Infos, news: Table, before: set<int>, limbo: set<int>, uncounted: int)
    requires Between(s, before, uncounted)
    requires SameSides(s.info, b) && SameOrder(s.info, b) && NewOk(s.h, s.key, b, news)
    requires EntriesOk(b, limbo, s.nIdCount)
    ensures Between(s.(info := b, news := news), limbo, uncounted)
  {
    KeepSides(s.h, s.key, s.info, b, s.tried);
  }

  /** A change of the tried table only. */
  lemma KeepNew(s: State, r: State, limbo: set<int>, uncounted: int)
    requires AddrOk(s.info, s.byAddr) && RandomOk(s.info, s.random)
    requires r == s.(info := r.info, tried := r.tried, nTried := r.nTried)
    requires SameAddrs(s.info, r.info) && SameOrder(s.info, r.info) && NewOk(s.h, s.key, r.info, s.news)
    requires TriedOk(s.h, s.key, r.info, r.tried) && EntriesOk(r.info, limbo, s.nIdCount)
    ensures r.nTried == |TriedIds(r.info)| && r.nNew + uncounted == |NewIds(r.info)| ==> Between(r, limbo, uncounted)
  {
  }

  /** The fields the indexes depend on. */
  ghost predicate SameRole(a: AddrInfo, b: AddrInfo) {
    a.addr == b.addr && a.refCount == b.refCount && a.inTried == b.inTried && a.randomPos == b.randomPos
  }

  lemma Touch(s: State, id: int, a: AddrInfo, limbo: set<int>, uncounted: int)
    requires Between(s, limbo, uncounted) && id in s.info
    requires SameRole(a, s.info[id]) && a.lastTry >= 0 && a.lastSuccess >= 0
    ensures Between(s.(info := s.info[id := a]), limbo, uncounted)
  {
    KeepAll(s, s.info[id := a], limbo, uncounted);
  }

  // ----- Creating -----

  ghost function Created(s: State, a: AddrInfo): (r: State) {
    s.(info := s.info[s.nIdCount := a.(randomPos := |s.random|)],
       byAddr := s.byAddr[a.addr.ip := s.nIdCount],
       random := s.random + [s.nIdCount],
       nIdCount := s.nIdCount + 1)
  }

  lemma Create(s: State, a: AddrInfo, limbo: set<int>, uncounted: int)
    requires Between(s, limbo, uncounted) && a.addr.ip !in s.byAddr
    requires a.refCount == 0 && !a.inTried && a.lastTry >= 0 && a.lastSuccess >= 0
    ensures Between(Created(s, a), limbo + {s.nIdCount}, uncounted + 1)
  {
    assert s.nIdCount !in s.info;
    CreateRandom(s, a);
    CreateNew(s, a);
    CreateTried(s, a);
    CreateAddr(s, a);
    CreateEntries(s, a, limbo);
    hide AddrOk, RandomOk, NewOk, TriedOk, EntriesOk, TriedIds, NewIds;
  }

  lemma CreateAddr(s: State, a: AddrInfo)
    requires AddrOk(s.info, s.byAddr) && s.nIdCount !in s.info && a.addr.ip !in s.byAddr
    ensures AddrOk(Created(s, a).info, Created(s, a).byAddr)
  {
  }

  lemma CreateEntries(s: State, a: AddrInfo, limbo: set<int>)
    requires EntriesOk(s.info, limbo, s.nIdCount) && a.refCount == 0 && !a.inTried && a.lastTry >= 0 && a.lastSuccess >= 0
    ensures EntriesOk(Created(s, a).info, limbo + {s.nIdCount}, Created(s, a).nIdCount)
  {
  }

  lemma CreateRandom(s: State, a: AddrInfo)
    requires RandomOk(s.info, s.random) && s.nIdCount !in s.info
    ensures RandomOk(Created(s, a).info, Created(s, a).random)
  {
    var r := Created(s, a);
    forall i | 0 <= i < |r.random| ensures r.random[i] in r.info && r.info[r.random[i]].randomPos == i {
      if i < |s.random| { assert r.random[i] == s.random[i]; }
    }
  }

  lemma CreateNew(s: State, a: AddrInfo)
    requires NewOk(s.h, s.key, s.info, s.news) && s.nIdCount !in s.info && a.refCount == 0
    ensures NewOk(s.h, s.key, Created(s, a).info, s.news)
  {
    assert Refs(s.news, s.nIdCount) == {};
  }

  lemma CreateTried(s: State, a: AddrInfo)
    requires TriedOk(s.h, s.key, s.info, s.tried) && s.nIdCount !in s.info && !a.inTried
    ensures TriedOk(s.h, s.key, Created(s, a).info, s.tried)
    ensures TriedIds(Created(s, a).info) == TriedIds(s.info)
    ensures |NewIds(Created(s, a).info)| == |NewIds(s.info)| + 1
  {
    assert NewIds(Created(s, a).info) == NewIds(s.info) + {s.nIdCount};
  }

  // ----- Swapping in the random order -----

  ghost function Swapped(s: State, i: nat, j: nat): (r: State)
    requires i < |s.random| && j < |s.random| && s.random[i] in s.info && s.random[j] in s.info
  {
    var a, b := s.random[i], s.random[j];
    var info := s.info[a := s.info[a].(randomPos := j)];
    s.(info := info[b := info[b].(randomPos := i)], random := s.random[i := b][j := a])
  }

  lemma Swap(s: State, i: nat, j: nat, limbo: set<int>, uncounted: int)
    requires Between(s, limbo, uncounted) && i < |s.random| && j < |s.random| && i != j
    ensures Between(Swapped(s, i, j), limbo, uncounted)
  {
    var r := Swapped(s, i, j);
    SwapRandom(s, r, i, j);
    SwapRefs(s, r, i, j, limbo);
    KeepRefs(s, r.info, r.random, limbo, uncounted);
  }

  lemma SwapRandom(s: State, r: State, i: nat, j: nat)
    requires RandomOk(s.info, s.random) && i < |s.random| && j < |s.random| && i != j && r == Swapped(s, i, j)
    ensures RandomOk(r.info, r.random)
  {
  }

  lemma SwapRefs(s: State, r: State, i: nat, j: nat, limbo: set<int>)
    requires RandomOk(s.info, s.random) && i < |s.random| && j < |s.random| && r == Swapped(s, i, j)
    requires EntriesOk(s.info, limbo, s.nIdCount)
    ensures SameRefs(s.info, r.info) && EntriesOk(r.info, limbo, s.nIdCount)
  {
  }

  // ----- Deleting the entry at the end of the random order -----

  ghost function Dropped(s: State, id: int): (r: State)
    requires id in s.info && s.random != []
  {
    s.(info := s.info - {id}, byAddr := s.byAddr - {s.info[id].addr.ip}, random := s.random[..|s.random| - 1])
  }

  lemma Drop(s: State, id: int, limbo: set<int>, uncounted: int)
    requires Between(s, limbo, uncounted) && id in s.info && id in limbo && s.info[id].refCount == 0
    requires s.random != [] && s.random[|s.random| - 1] == id
    ensures Between(Dropped(s, id), limbo - {id}, uncounted - 1)
  {
    DropRandom(s, id);
    DropNew(s, id);
    DropTried(s, id);
  }

  lemma DropRandom(s: State, id: int)
    requires RandomOk(s.info, s.random) && id in s.info && s.random != [] && s.random[|s.random| - 1] == id
    ensures RandomOk(Dropped(s, id).info, Dropped(s, id).random)
  {
  }

  lemma DropNew(s: State, id: int)
    requires NewOk(s.h, s.key, s.info, s.news) && id in s.info && s.info[id].refCount == 0
    ensures NewOk(s.h, s.key, s.info - {id}, s.news)
  {
    assert Refs(s.news, id) == {};
    forall slot | slot in s.news ensures s.news[slot] != id {
      assert slot !in Refs(s.news, id);
    }
  }

  lemma DropTried(s: State, id: int)
    requires TriedOk(s.h, s.key, s.info, s.tried) && id in s.info && !s.info[id].inTried
    ensures TriedOk(s.h, s.key, s.info - {id}, s.tried)
    ensures TriedIds(s.info - {id}) == TriedIds(s.info)
    ensures |NewIds(s.info - {id})| == |NewIds(s.info)| - 1
  {
    assert NewIds(s.info - {id}) == NewIds(s.info) - {id};
  }

  ghost function Deleted(s: State, id: int): (r: State)
    requires AddrOk(s.info, s.byAddr) && RandomOk(s.info, s.random) && id in s.info
  {
    var i, j := s.info[id].randomPos, |s.random| - 1;
    var t := if i == j then s else Swapped(s, i, j);
    Dropped(t, id).(nNew := s.nNew - 1)
  }

  /** The entries stay as they are, except that some are gone and the random order may change. */
  ghost predicate OnlyForgets(before: Infos, after: Infos, gone: set<int>) {
    && after.Keys == before.Keys - gone
    && forall id :: id in after ==> after[id] == before[id].(randomPos := after[id].randomPos)
  }

  lemma HasPosition(s: State, id: int, limbo: set<int>, uncounted: int)
    requires Between(s, limbo, uncounted) && id in s.info
    ensures AddrOk(s.info, s.byAddr) && RandomOk(s.info, s.random)
    ensures 0 <= s.info[id].randomPos < |s.random| && s.random[s.info[id].randomPos] == id
    ensures s.random[|s.random| - 1] in s.info
  {
  }

  lemma Recount(s: State, limbo: set<int>, uncounted: int, n: int)
    requires Between(s, limbo, uncounted)
    ensures Between(s.(nNew := s.nNew - n), limbo, uncounted + n)
  {
  }

  lemma IdInRange(s: State, id: int, limbo: set<int>, uncounted: int)
    requires Between(s, limbo, uncounted) && id in s.info
    ensures 0 <= id < s.nIdCount && s.info[id].refCount <= NEW_BUCKETS_PER_ADDRESS
    ensures !s.info[id].inTried && id !in limbo ==> s.info[id].refCount >= 1
  {
  }

  lemma OutOfLimbo(s: State, limbo: set<int>, id: int, uncounted: int)
    requires Between(s, limbo, uncounted) && id in s.info && s.info[id].refCount >= 1
    ensures Between(s, limbo - {id}, uncounted)
  {
  }

  lemma IntoLimbo(s: State, limbo: set<int>, id: int, uncounted: int)
    requires Between(s, limbo, uncounted) && (id in s.info ==> !s.info[id].inTried)
    ensures Between(s, limbo + {id}, uncounted)
  {
  }

  lemma Delete(s: State, id: int, limbo: set<int>, uncounted: int)
    requires Between(s, limbo, uncounted) && id in s.info && id in limbo && s.info[id].refCount == 0
    ensures AddrOk(s.info, s.byAddr) && RandomOk(s.info, s.random)
    ensures Between(Deleted(s, id), limbo - {id}, uncounted)
    ensures OnlyForgets(s.info, Deleted(s, id).info, {id})
  {
    hide Between, OnlyForgets, AddrOk, RandomOk;
    HasPosition(s, id, limbo, uncounted);
    DeleteSteps(s, id, limbo, uncounted, s.info[id].randomPos, |s.random| - 1);
  }

  lemma DeleteSteps(s: State, id: int, limbo: set<int>, uncounted: int, i: nat, j: nat)
    requires Between(s, limbo, uncounted) && id in s.info && id in limbo && s.info[id].refCount == 0
    requires i < |s.random| && s.random[i] == id && j == |s.random| - 1 && s.random[j] in s.info
    ensures var t := if i == j then s else Swapped(s, i, j);
            && id in t.info && Between(Dropped(t, id).(nNew := s.nNew - 1), limbo - {id}, uncounted)
            && OnlyForgets(s.info, Dropped(t, id).info, {id})
  {
    hide Between;
    var t := if i == j then s else Swapped(s, i, j);
    if i != j { Swap(s, i, j, limbo, uncounted); }
    Drop(t, id, limbo, uncounted);
    Recount(Dropped(t, id), limbo - {id}, uncounted - 1, 1);
  }

  // ----- Giving up and taking a new slot -----

  ghost function Released(s: State, slot: Slot): (r: State)
    requires slot in s.news && s.news[slot] in s.info
  {
    var id := s.news[slot];
    s.(info := s.info[id := s.info[id].(refCount := s.info[id].refCount - 1)], news := s.news - {slot})
  }

  lemma Release(s: State, slot: Slot, limbo: set<int>, uncounted: int)
    requires Between(s, limbo, uncounted) && slot in s.news
    ensures s.news[slot] in s.info && s.info[s.news[slot]].refCount >= 1 && !s.info[s.news[slot]].inTried
    ensures Between(Released(s, slot), limbo + {s.news[slot]}, uncounted)
    ensures s.info[s.news[slot]].refCount > 1 ==> Between(Released(s, slot), limbo, uncounted)
  {
    var id := s.news[slot];
    assert slot in Refs(s.news, id);
    var r := Released(s, slot);
    ReleaseNew(s, slot);
    KeepTried(s, r.info, r.news, limbo, limbo + {id}, uncounted);
    if s.info[id].refCount > 1 { KeepTried(s, r.info, r.news, limbo, limbo, uncounted); }
  }

  lemma ReleaseNew(s: State, slot: Slot)
    requires NewOk(s.h, s.key, s.info, s.news) && slot in s.news && !s.info[s.news[slot]].inTried
    ensures NewOk(s.h, s.key, Released(s, slot).info, Released(s, slot).news)
  {
    var r := Released(s, slot);
    forall id | id in r.info ensures r.info[id].refCount == |Refs(r.news, id)| {
      assert Refs(r.news, id) == Refs(s.news, id) - {slot};
    }
  }

  ghost function Taken(s: State, slot: Slot, id: int): (r: State)
    requires id in s.info
  {
    s.(info := s.info[id := s.info[id].(refCount := s.info[id].refCount + 1)], news := s.news[slot := id])
  }

  lemma Take(s: State, slot: Slot, id: int, limbo: set<int>, uncounted: int)
    requires Between(s, limbo, uncounted) && id in s.info && !s.info[id].inTried && slot !in s.news
    requires slot.bucket < NEW_BUCKET_COUNT && slot == NewSlot(s.h, s.key, s.info[id].addr, slot.bucket)
    requires s.info[id].refCount < NEW_BUCKETS_PER_ADDRESS
    ensures Between(Taken(s, slot, id), limbo - {id}, uncounted)
  {
    var r := Taken(s, slot, id);
    TakeNew(s, slot, id);
    KeepTried(s, r.info, r.news, limbo, limbo - {id}, uncounted);
  }

  lemma TakeNew(s: State, slot: Slot, id: int)
    requires NewOk(s.h, s.key, s.info, s.news) && id in s.info && !s.info[id].inTried && slot !in s.news
    requires slot.bucket < NEW_BUCKET_COUNT && slot == NewSlot(s.h, s.key, s.info[id].addr, slot.bucket)
    ensures NewOk(s.h, s.key, Taken(s, slot, id).info, Taken(s, slot, id).news)
  {
    var r := Taken(s, slot, id);
    forall x | x in r.info
      ensures r.info[x].refCount == |Refs(r.news, x)| && (r.info[x].inTried ==> r.info[x].refCount == 0)
    {
      RefsTaken(s.news, slot, id, x);
    }
    forall t | t in r.news
      ensures r.news[t] in r.info && t.bucket < NEW_BUCKET_COUNT
      ensures t == NewSlot(s.h, s.key, r.info[r.news[t]].addr, t.bucket)
    {
      assert t != slot ==> t in s.news && r.news[t] == s.news[t];
    }
  }

  lemma RefsTaken(news: Table, slot: Slot, id: int, x: int)
    requires slot !in news
    ensures |Refs(news[slot := id], x)| == |Refs(news, x)| + if x == id then 1 else 0
  {
    assert Refs(news[slot := id], x) == if x == id then Refs(news, x) + {slot} else Refs(news, x);
  }

  // ----- Leaving and entering the tried table -----

  ghost function Evicted(s: State, slot: Slot): (r: State)
    requires slot in s.tried && s.tried[slot] in s.info
  {
    var id := s.tried[slot];
    s.(info := s.info[id := s.info[id].(inTried := false)], tried := s.tried - {slot}, nTried := s.nTried - 1)
  }

  lemma Evict(s: State, slot: Slot, limbo: set<int>, uncounted: int)
    requires Between(s, limbo, uncounted) && slot in s.tried
    ensures s.tried[slot] in s.info && s.info[s.tried[slot]].inTried && s.info[s.tried[slot]].refCount == 0
    ensures Between(Evicted(s, slot), limbo + {s.tried[slot]}, uncounted + 1)
  {
    var id, r := s.tried[slot], Evicted(s, slot);
    EvictTried(s, slot);
    KeepNew(s, r, limbo + {id}, uncounted + 1);
  }

  lemma EvictTried(s: State, slot: Slot)
    requires TriedOk(s.h, s.key, s.info, s.tried) && slot in s.tried
    ensures TriedOk(s.h, s.key, Evicted(s, slot).info, Evicted(s, slot).tried)
    ensures |NewIds(Evicted(s, slot).info)| == |NewIds(s.info)| + 1
    ensures |TriedIds(Evicted(s, slot).info)| == |TriedIds(s.info)| - 1
  {
    SideChange(s.info, s.tried[slot], false);
  }

  ghost function Entered(s: State, slot: Slot, id: int): (r: State)
    requires id in s.info
  {
    s.(info := s.info[id := s.info[id].(inTried := true)], tried := s.tried[slot := id], nTried := s.nTried + 1)
  }

  lemma Enter(s: State, slot: Slot, id: int, limbo: set<int>, uncounted: int)
    requires Between(s, limbo, uncounted) && id in s.info && !s.info[id].inTried && s.info[id].refCount == 0
    requires slot !in s.tried && slot == TriedSlot(s.h, s.key, s.info[id].addr)
    ensures Between(Entered(s, slot, id), limbo - {id}, uncounted - 1)
  {
    EnterTried(s, slot, id);
    KeepNew(s, Entered(s, slot, id), limbo - {id}, uncounted - 1);
  }

  lemma EnterTried(s: State, slot: Slot, id: int)
    requires TriedOk(s.h, s.key, s.info, s.tried) && id in s.info && !s.info[id].inTried
    requires slot !in s.tried && slot == TriedSlot(s.h, s.key, s.info[id].addr)
    ensures TriedOk(s.h, s.key, Entered(s, slot, id).info, Entered(s, slot, id).tried)
    ensures |NewIds(Entered(s, slot, id).info)| == |NewIds(s.info)| - 1
    ensures |TriedIds(Entered(s, slot, id).info)| == |TriedIds(s.info)| + 1
  {
    var r := Entered(s, slot, id);
    SideChange(s.info, id, true);
    forall t | t in r.tried
      ensures r.tried[t] in r.info && r.info[r.tried[t]].inTried && t == TriedSlot(s.h, s.key, r.info[r.tried[t]].addr)
    {
      assert t != slot ==> t in s.tried && r.tried[t] == s.tried[t];
    }
    forall x | x in r.info && r.info[x].inTried
      ensures var t := TriedSlot(s.h, s.key, r.info[x].addr); t in r.tried && r.tried[t] == x
    {
      assert x != id ==> r.info[x] == s.info[x];
    }
  }

  lemma SideChange(info: Infos, id: int, side: bool)
    requires id in info && info[id].inTried != side
    ensures var r := info[id := info[id].(inTried := side)]; var d := if side then 1 else -1;
            |NewIds(r)| == |NewIds(info)| - d && |TriedIds(r)| == |TriedIds(info)| + d
  {
    var r := info[id := info[id].(inTried := side)];
    if side {
      assert NewIds(r) == NewIds(info) - {id};
      assert TriedIds(r) == TriedIds(info) + {id};
    } else {
      assert NewIds(r) == NewIds(info) + {id};
      assert TriedIds(r) == TriedIds(info) - {id};
    }
  }

  // ----- Clearing a new slot -----

  /** Entry `x` may be gone or hold one slot less; the others keep their tables and slots. */
  ghost predicate Loses(before: Infos, after: Infos, x: int) {
    && before.Keys - {x} <= after.Keys <= before.Keys
    && forall id :: id in after ==>
        && after[id] == before[id].(randomPos := after[id].randomPos, refCount := after[id].refCount)
        && (id != x ==> after[id].refCount == before[id].refCount)
  }

  /** Giving up a slot, and the entry with it if that was its last one. */
  lemma ClearSlot(s: State, slot: Slot, limbo: set<int>, uncounted: int)
    requires Between(s, limbo, uncounted) && slot in s.news && s.news[slot] !in limbo
    ensures s.news[slot] in s.info && s.info[s.news[slot]].refCount >= 1
    ensures var id, r := s.news[slot], Released(s, slot);
            if s.info[id].refCount > 1 then Between(r, limbo, uncounted) && Loses(s.info, r.info, id)
            else && Between(r, limbo + {id}, uncounted)
                 && forall t :: Between(t, limbo + {id} - {id}, uncounted) && OnlyForgets(r.info, t.info, {id}) ==>
                      Between(t, limbo, uncounted) && Loses(s.info, t.info, id)
  {
    Release(s, slot, limbo, uncounted);
    var id, r := s.news[slot], Released(s, slot);
    assert limbo + {id} - {id} == limbo;
    hide Between;
    assert s.info[id].refCount > 1 ==> Loses(s.info, r.info, id);
    forall t: State | OnlyForgets(r.info, t.info, {id}) ensures Loses(s.info, t.info, id) {
      LosesThenForgets(s.info, r.info, t.info, id);
    }
  }

  lemma HolderCounts(s: State, slot: Slot, limbo: set<int>, uncounted: int)
    requires Between(s, limbo, uncounted) && slot in s.news
    ensures s.news[slot] in s.info && s.info[s.news[slot]].refCount >= 1
  {
    assert slot in Refs(s.news, s.news[slot]);
  }

  lemma LosesThenForgets(a: Infos, b: Infos, c: Infos, id: int)
    requires Loses(a, b, id) && OnlyForgets(b, c, {id})
    ensures Loses(a, c, id)
  {
  }
}

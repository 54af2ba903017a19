/** Writing the address manager to a stream and reading it back. */
module AddrStore {
  import opened AddrTables
  import opened Basics

  // ----- The stream -----

  /** The part of an entry that is written. */
  datatype Stored = Stored(addr: Service, time: int, services: bv64, source: nat, lastSuccess: int, attempts: int)

  datatype Stream = Stream(
    format: nat, keySize: nat, key: nat, nNew: int, nTried: int, nUBuckets: nat,
    newInfos: seq<Stored>, triedInfos: seq<Stored>, rows: seq<seq<int>>)

  const V3_BIP155: nat := 3
  /** The number of new buckets with bit 30 flipped. */
  const WRITTEN_BUCKETS: nat := NEW_BUCKET_COUNT + 0x4000_0000

  function Store(a: AddrInfo): (r: Stored) {
    Stored(a.addr, a.time, a.services, a.source, a.lastSuccess, a.attempts)
  }

  function Load(a: Stored): (r: AddrInfo) {
    AddrInfo(a.addr, a.time, a.services, a.source, 0, 0, a.lastSuccess, a.attempts, 0, false, -1)
  }

  // ----- What is written -----

  /** A walk through some entries, each once. */
  ghost predicate Walk(info: Infos, order: seq<int>) {
    Distinct(order) && forall i :: 0 <= i < |order| ==> order[i] in info
  }

  ghost predicate FullWalk(info: Infos, order: seq<int>) {
    Walk(info, order) && forall id :: id in info ==> id in order
  }

  /** The entries of one table met on a walk. */
  ghost predicate Lists(info: Infos, order: seq<int>, ids: seq<int>, inTried: bool) {
    && Distinct(ids)
    && (forall k :: 0 <= k < |ids| ==> ids[k] in order && ids[k] in info && info[ids[k]].inTried == inTried)
    && forall i :: 0 <= i < |order| && order[i] in info && info[order[i]].inTried == inTried ==> order[i] in ids
  }

  /** Those entries in the order of the walk. */
  ghost function Listed(info: Infos, order: seq<int>, inTried: bool): (ids: seq<int>) {
    if order == [] then []
    else
      var last := order[|order| - 1];
      Listed(info, order[..|order| - 1], inTried) + if last in info && info[last].inTried == inTried then [last] else []
  }

  lemma {:induction false} ListedIs(info: Infos, order: seq<int>, inTried: bool)
    requires Walk(info, order)
    ensures Lists(info, order, Listed(info, order, inTried), inTried)
  {
    if order == [] {
      NothingListed(info, inTried);
    } else {
      var n := |order| - 1;
      ListedIs(info, order[..n], inTried);
      hide Lists;
      ListStep(info, order, n, Listed(info, order[..n], inTried), inTried);
      assert order[..n + 1] == order;
    }
  }

  ghost predicate StoredAs(info: Infos, ids: seq<int>, out: seq<Stored>) {
    |out| == |ids| && forall k :: 0 <= k < |ids| ==> ids[k] in info && out[k] == Store(info[ids[k]])
  }

  /** The filled slots of a bucket among its first `i` positions. */
  function Filled(news: Table, bucket: nat, i: nat): (r: seq<Slot>) {
    if i == 0 then []
    else Filled(news, bucket, i - 1) + if Slot(bucket, i - 1) in news then [Slot(bucket, i - 1)] else []
  }

  lemma {:induction false} FilledMembers(news: Table, bucket: nat, i: nat)
    ensures Distinct(Filled(news, bucket, i))
    ensures forall t :: t in Filled(news, bucket, i) <==> t in news && t.bucket == bucket && t.pos < i
  {
    if i > 0 { FilledMembers(news, bucket, i - 1); }
  }

  /** One row: for each filled slot, the place of its entry in the list. */
  ghost predicate RowOf(news: Table, ids: seq<int>, slots: seq<Slot>, row: seq<int>) {
    && |row| == |slots|
    && forall n :: 0 <= n < |row| ==> slots[n] in news && 0 <= row[n] < |ids| && ids[row[n]] == news[slots[n]]
  }

  /** `out` is how a state is written: its entries by table, and for each new bucket the places of the entries in its
      filled slots. */
  ghost predicate Written(s: State, news: seq<int>, tried: seq<int>, out: Stream) {
    && out.format == V3_BIP155 && out.keySize == 32 && out.key == s.key
    && out.nNew == s.nNew && out.nTried == s.nTried && out.nUBuckets == WRITTEN_BUCKETS
    && StoredAs(s.info, news, out.newInfos) && StoredAs(s.info, tried, out.triedInfos)
    && |out.rows| == NEW_BUCKET_COUNT
    && forall b :: 0 <= b < NEW_BUCKET_COUNT ==> RowOf(s.news, news, Filled(s.news, b, BUCKET_SIZE), out.rows[b])
  }

  // ----- Writing -----

  lemma ListSize(s: State, order: seq<int>, ids: seq<int>, inTried: bool)
    requires Consistent(s) && Lists(s.info, order, ids, inTried)
    ensures |ids| <= if inTried then s.nTried else s.nNew
    ensures FullWalk(s.info, order) ==> |ids| == if inTried then s.nTried else s.nNew
  {
    var all := if inTried then TriedIds(s.info) else NewIds(s.info);
    forall k | 0 <= k < |ids| ensures ids[k] in all {
      var id := ids[k];
      assert id in s.info && s.info[id].inTried == inTried;
    }
    if FullWalk(s.info, order) {
      forall id | id in all ensures id in ids {
        assert id in order;
      }
    }
    hide Between;
    DistinctSize(ids, all);
  }

  lemma ListStep(info: Infos, order: seq<int>, i: nat, ids: seq<int>, inTried: bool)
    requires i < |order| && Walk(info, order) && Lists(info, order[..i], ids, inTried)
    ensures if info[order[i]].inTried == inTried
            then Lists(info, order[..i + 1], ids + [order[i]], inTried) else Lists(info, order[..i + 1], ids, inTried)
  {
    var a, b := order[..i], order[..i + 1];
    assert b == a + [order[i]];
    forall j | 0 <= j < |a| ensures a[j] != order[i] {
      assert a[j] == order[j];
    }
  }

  lemma Sides(s: State, id: int)
    requires Consistent(s) && id in s.info
    ensures s.info[id].refCount != 0 <==> !s.info[id].inTried
  {
  }

  method WriteNew(s: State, order: seq<int>) returns (infos: seq<Stored>, unkIds: map<int, int>)
    requires Consistent(s) && FullWalk(s.info, order)
    ensures var news := Listed(s.info, order, false);
            StoredAs(s.info, news, infos) && forall k :: 0 <= k < |news| ==> news[k] in unkIds && unkIds[news[k]] == k
  {
    hide Between, Lists;
    infos, unkIds := [], map[];
    ghost var news := [];
    var nIds := 0;
    for i := 0 to |order|
      invariant nIds == |infos| == |news| && news == Listed(s.info, order[..i], false) && StoredAs(s.info, news, infos)
      invariant forall k :: 0 <= k < |news| ==> news[k] in order[..i] && news[k] in unkIds && unkIds[news[k]] == k
    {
      var id := order[i];
      assert order[..i + 1] == order[..i] + [id];
      assert id !in order[..i];
      unkIds := unkIds[id := nIds];
      Sides(s, id);
      if s.info[id].refCount != 0 {
        ListedIs(s.info, order[..i + 1], false);
        ListSize(s, order[..i + 1], news + [id], false);
        if nIds == s.nNew {
          assert false;
        }
        infos := infos + [Store(s.info[id])];
        news := news + [id];
        nIds := nIds + 1;
      }
    }
    assert order[..|order|] == order;
  }

  method WriteTried(s: State, order: seq<int>) returns (infos: seq<Stored>)
    requires Consistent(s) && FullWalk(s.info, order)
    ensures StoredAs(s.info, Listed(s.info, order, true), infos)
  {
    hide Between, Lists;
    infos := [];
    ghost var tried := [];
    var nIds := 0;
    for i := 0 to |order|
      invariant nIds == |infos| == |tried| && tried == Listed(s.info, order[..i], true) && StoredAs(s.info, tried, infos)
    {
      var id := order[i];
      assert order[..i + 1] == order[..i] + [id];
      if s.info[id].inTried {
        ListedIs(s.info, order[..i + 1], true);
        ListSize(s, order[..i + 1], tried + [id], true);
        if nIds == s.nTried {
          assert false;
        }
        infos := infos + [Store(s.info[id])];
        tried := tried + [id];
        nIds := nIds + 1;
      }
    }
    assert order[..|order|] == order;
  }

  lemma NothingListed(info: Infos, inTried: bool)
    ensures Lists(info, [], [], inTried)
  {
  }

  method WriteRow(s: State, unkIds: map<int, int>, bucket: nat, ghost order: seq<int>, ghost news: seq<int>)
    returns (row: seq<int>)
    requires Consistent(s) && FullWalk(s.info, order) && Lists(s.info, order, news, false)
    requires forall k :: 0 <= k < |news| ==> news[k] in unkIds && unkIds[news[k]] == k
    ensures RowOf(s.news, news, Filled(s.news, bucket, BUCKET_SIZE), row)
  {
    row := [];
    for i := 0 to BUCKET_SIZE
      invariant RowOf(s.news, news, Filled(s.news, bucket, i), row)
    {
      var slot := Slot(bucket, i);
      if slot in s.news {
        Holder(s, order, news, slot);
        row := row + [unkIds[s.news[slot]]];
      }
    }
  }

  lemma Holder(s: State, order: seq<int>, news: seq<int>, slot: Slot)
    requires Consistent(s) && FullWalk(s.info, order) && Lists(s.info, order, news, false) && slot in s.news
    ensures s.news[slot] in news
  {
    var id := s.news[slot];
    assert slot in Refs(s.news, id);
    assert id in s.info && !s.info[id].inTried;
    assert id in order;
  }

  method Serialize(s: State, order: seq<int>) returns (out: Stream)
    requires Consistent(s) && FullWalk(s.info, order)
    ensures Written(s, Listed(s.info, order, false), Listed(s.info, order, true), out)
  {
    hide Between, Lists, RowOf, Filled, Listed;
    ghost var news := Listed(s.info, order, false);
    ListedIs(s.info, order, false);
    var newInfos, unkIds := WriteNew(s, order);
    var triedInfos := WriteTried(s, order);
    var rows: seq<seq<int>> := [];
    for b := 0 to NEW_BUCKET_COUNT
      invariant |rows| == b
      invariant forall c :: 0 <= c < b ==> RowOf(s.news, news, Filled(s.news, c, BUCKET_SIZE), rows[c])
    {
      var row := WriteRow(s, unkIds, b, order, news);
      rows := rows + [row];
    }
    out := Stream(V3_BIP155, 32, s.key, s.nNew, s.nTried, WRITTEN_BUCKETS, newInfos, triedInfos, rows);
  }

  // ----- Reading -----

  /** The first `n` entries of `all` are in; the first `nNew` of all belong to the new table. */
  ghost predicate Restored(info: Infos, byAddr: map<nat, int>, random: seq<int>, all: seq<Stored>, nNew: nat, n: nat)
    requires n <= |all|
  {
    && (forall k :: k in info <==> 0 <= k < n)
    && (forall k :: 0 <= k < n ==>
          info[k] == Load(all[k]).(randomPos := k, inTried := k >= nNew, refCount := info[k].refCount))
    && |random| == n && (forall k :: 0 <= k < n ==> random[k] == k)
    && (forall ip :: ip in byAddr ==> 0 <= byAddr[ip] < n && all[byAddr[ip]].addr.ip == ip)
    && (forall k :: 0 <= k < n ==> all[k].addr.ip in byAddr && byAddr[all[k].addr.ip] == k)
  }

  ghost predicate NoReferences(info: Infos) {
    forall k :: k in info ==> info[k].refCount == 0
  }

  ghost predicate DistinctAddrs(all: seq<Stored>) {
    forall j, k :: 0 <= j < k < |all| ==> all[j].addr.ip != all[k].addr.ip
  }

  lemma RestoreStep(info: Infos, byAddr: map<nat, int>, random: seq<int>, all: seq<Stored>, nNew: nat, n: nat)
    requires n < |all| && Restored(info, byAddr, random, all, nNew, n) && DistinctAddrs(all) && NoReferences(info)
    ensures var a := Load(all[n]).(randomPos := n, inTried := n >= nNew);
            && Restored(info[n := a], byAddr[a.addr.ip := n], random + [n], all, nNew, n + 1)
            && NoReferences(info[n := a])
  {
  }

  method ReadNew(infos: seq<Stored>, nNew: nat, ghost all: seq<Stored>)
    returns (info: Infos, byAddr: map<nat, int>, random: seq<int>)
    requires nNew == |infos| <= |all| && all[..nNew] == infos && DistinctAddrs(all)
    ensures Restored(info, byAddr, random, all, nNew, nNew) && NoReferences(info)
  {
    hide Restored, NoReferences, DistinctAddrs;
    info, byAddr, random := map[], map[], [];
    NothingRestored(all, nNew);
    for n := 0 to nNew
      invariant |random| == n && Restored(info, byAddr, random, all, nNew, n) && NoReferences(info)
    {
      assert infos[n] == all[..nNew][n] == all[n];
      RestoreStep(info, byAddr, random, all, nNew, n);
      info := info[n := Load(infos[n]).(randomPos := |random|)];
      byAddr := byAddr[info[n].addr.ip := n];
      random := random + [n];
    }
  }

  lemma NothingRestored(all: seq<Stored>, nNew: nat)
    ensures Restored(map[], map[], [], all, nNew, 0) && NoReferences(map[])
  {
  }

  /** The tried slots of the entries from `nNew` on are filled with them, and no others. */
  ghost predicate Seated(h: Hashes, key: nat, tried: Table, all: seq<Stored>, nNew: nat, n: nat)
    requires nNew <= n <= |all|
  {
    && (forall t :: t in tried ==> nNew <= tried[t] < n && t == TriedSlot(h, key, all[tried[t]].addr))
    && (forall k :: nNew <= k < n ==> TriedSlot(h, key, all[k].addr) in tried && tried[TriedSlot(h, key, all[k].addr)] == k)
  }

  ghost predicate DistinctSeats(h: Hashes, key: nat, all: seq<Stored>, nNew: nat) {
    forall j, k :: nNew <= j < k < |all| ==> TriedSlot(h, key, all[j].addr) != TriedSlot(h, key, all[k].addr)
  }

  lemma SeatStep(h: Hashes, key: nat, tried: Table, all: seq<Stored>, nNew: nat, n: nat)
    requires nNew <= n < |all| && Seated(h, key, tried, all, nNew, n) && DistinctSeats(h, key, all, nNew)
    ensures TriedSlot(h, key, all[n].addr) !in tried
    ensures Seated(h, key, tried[TriedSlot(h, key, all[n].addr) := n], all, nNew, n + 1)
  {
  }

  lemma RestoredSize(info: Infos, byAddr: map<nat, int>, random: seq<int>, all: seq<Stored>, nNew: nat, n: nat)
    requires n <= |all| && Restored(info, byAddr, random, all, nNew, n)
    ensures |random| == n
  {
  }

  lemma NobodySeated(h: Hashes, key: nat, all: seq<Stored>, nNew: nat)
    requires nNew <= |all|
    ensures Seated(h, key, map[], all, nNew, nNew)
  {
  }

  method ReadTried(h: Hashes, key: nat, infos: seq<Stored>, nTried: nat, nNew: nat, ghost all: seq<Stored>,
                   info0: Infos, byAddr0: map<nat, int>, random0: seq<int>)
    returns (info: Infos, byAddr: map<nat, int>, random: seq<int>, tried: Table, nIdCount: nat, nLost: int)
    requires nTried == |infos| && |all| == nNew + nTried && all[nNew..] == infos
    requires DistinctAddrs(all) && DistinctSeats(h, key, all, nNew)
    requires Restored(info0, byAddr0, random0, all, nNew, nNew) && NoReferences(info0)
    ensures Restored(info, byAddr, random, all, nNew, |all|) && NoReferences(info)
    ensures Seated(h, key, tried, all, nNew, |all|) && nIdCount == |all| && nLost == 0
  {
    info, byAddr, random, tried, nIdCount, nLost := info0, byAddr0, random0, map[], nNew, 0;
    RestoredSize(info, byAddr, random, all, nNew, nNew);
    NobodySeated(h, key, all, nNew);
    hide Restored, NoReferences, DistinctAddrs, DistinctSeats, Seated, TriedSlot;
    for n := 0 to nTried
      invariant nIdCount == |random| == nNew + n && nLost == 0
      invariant Restored(info, byAddr, random, all, nNew, nNew + n) && NoReferences(info)
      invariant Seated(h, key, tried, all, nNew, nNew + n)
    {
      assert infos[n] == all[nNew..][n] == all[nNew + n];
      RestoreStep(info, byAddr, random, all, nNew, nNew + n);
      SeatStep(h, key, tried, all, nNew, nNew + n);
      var a := Load(infos[n]);
      var slot := TriedSlot(h, key, a.addr);
      if slot !in tried {
        a := a.(randomPos := |random|, inTried := true);
        random := random + [nIdCount];
        info := info[nIdCount := a];
        byAddr := byAddr[a.addr.ip := nIdCount];
        tried := tried[slot := nIdCount];
        nIdCount := nIdCount + 1;
      } else {
        assert false;
        nLost := nLost + 1;
      }
    }
  }

  /** The slots `done` of the old table are filled again, by the entries at the same places of the list `ids`. */
  ghost predicate Refilled(s: State, ids: seq<int>, nNew: nat, info: Infos, table: Table, done: set<Slot>) {
    SlotsRefilled(s, ids, nNew, table, done) && CountsRefilled(s, ids, nNew, info, done)
  }

  ghost predicate SlotsRefilled(s: State, ids: seq<int>, nNew: nat, table: Table, done: set<Slot>) {
    && table.Keys == done
    && forall t :: t in done ==> t in s.news && 0 <= table[t] < nNew <= |ids| && ids[table[t]] == s.news[t]
  }

  ghost predicate CountsRefilled(s: State, ids: seq<int>, nNew: nat, info: Infos, done: set<Slot>) {
    forall k :: k in info ==>
      0 <= k < |ids| && info[k].refCount == if k < nNew then |Refs(s.news, ids[k]) * done| else 0
  }

  lemma RefillStep(s: State, ids: seq<int>, nNew: nat, info: Infos, table: Table, done: set<Slot>, t: Slot, k: int)
    requires Consistent(s) && Refilled(s, ids, nNew, info, table, done) && t in s.news && t !in done && Distinct(ids)
    requires 0 <= k < nNew <= |ids| && ids[k] == s.news[t] && k in info
    ensures info[k].refCount < NEW_BUCKETS_PER_ADDRESS
    ensures Refilled(s, ids, nNew, info[k := info[k].(refCount := info[k].refCount + 1)], table[t := k], done + {t})
  {
    assert info[k].refCount == |Refs(s.news, ids[k]) * done|;
    hide Between, SlotsRefilled, CountsRefilled;
    RoomLeft(s, ids[k], t, done);
    SlotStep(s, ids, nNew, table, done, t, k);
    CountStep(s, ids, nNew, info, done, t, k);
  }

  lemma SlotStep(s: State, ids: seq<int>, nNew: nat, table: Table, done: set<Slot>, t: Slot, k: int)
    requires SlotsRefilled(s, ids, nNew, table, done) && t in s.news && 0 <= k < nNew <= |ids| && ids[k] == s.news[t]
    ensures SlotsRefilled(s, ids, nNew, table[t := k], done + {t})
  {
  }

  lemma CountStep(s: State, ids: seq<int>, nNew: nat, info: Infos, done: set<Slot>, t: Slot, k: int)
    requires CountsRefilled(s, ids, nNew, info, done) && t in s.news && t !in done && Distinct(ids)
    requires 0 <= k < nNew <= |ids| && ids[k] == s.news[t] && k in info
    ensures CountsRefilled(s, ids, nNew, info[k := info[k].(refCount := info[k].refCount + 1)], done + {t})
  {
    forall j | j in info && j < nNew
      ensures |Refs(s.news, ids[j]) * (done + {t})| == info[j].refCount + if j == k then 1 else 0
    {
      assert t in Refs(s.news, ids[j]) <==> j == k;
      OneMore(Refs(s.news, ids[j]), done, t);
    }
  }

  lemma RoomLeft(s: State, id: int, t: Slot, done: set<Slot>)
    requires Consistent(s) && t in s.news && s.news[t] == id && t !in done
    ensures |Refs(s.news, id) * done| < NEW_BUCKETS_PER_ADDRESS
  {
    var refs := Refs(s.news, id);
    assert t in refs && id in s.info && s.info[id].refCount == |refs|;
    hide Between;
    OneMore(refs, done, t);
    SubsetSize(refs * (done + {t}), refs);
  }

  /** Entries differ from `base` in their reference counts only. */
  ghost predicate SameButRefs(base: Infos, info: Infos) {
    info.Keys == base.Keys && forall k :: k in info ==> info[k] == base[k].(refCount := info[k].refCount)
  }

  /** The filled slots of the buckets before `b`. */
  ghost function Before(news: Table, b: nat): (r: set<Slot>) {
    set t | t in news && t.bucket < b
  }

  /** The entries up to `nNew` stand where the list has the entries with their addresses. */
  ghost predicate SamePlaces(s: State, ids: seq<int>, nNew: nat, info: Infos)
    requires nNew <= |ids|
  {
    forall k :: 0 <= k < nNew ==> k in info && ids[k] in s.info && info[k].addr == s.info[ids[k]].addr
  }

  method ReadRow(h: Hashes, key: nat, row: seq<int>, bucket: nat, nNew: nat, info0: Infos, table0: Table,
                 ghost s: State, ghost ids: seq<int>)
    returns (info: Infos, table: Table)
    requires Consistent(s) && s.h == h && s.key == key && Distinct(ids) && nNew <= |ids|
    requires RowOf(s.news, ids[..nNew], Filled(s.news, bucket, BUCKET_SIZE), row)
    requires SamePlaces(s, ids, nNew, info0)
    requires Refilled(s, ids, nNew, info0, table0, Before(s.news, bucket))
    ensures SameButRefs(info0, info) && SamePlaces(s, ids, nNew, info)
    ensures Refilled(s, ids, nNew, info, table, Before(s.news, bucket + 1))
  {
    info, table := info0, table0;
    ghost var slots, done := Filled(s.news, bucket, BUCKET_SIZE), Before(s.news, bucket);
    FilledMembers(s.news, bucket, BUCKET_SIZE);
    hide Between, Refilled, Filled;
    for n := 0 to |row|
      invariant SameButRefs(info0, info) && Refilled(s, ids, nNew, info, table, done)
      invariant done == Before(s.news, bucket) + set t | t in slots[..n]
    {
      var index := row[n];
      ghost var t := slots[n];
      assert t in slots && t !in done;
      assert slots[..n + 1] == slots[..n] + [t];
      assert ids[..nNew][index] == ids[index];
      if 0 <= index < nNew {
        var slot := NewSlot(h, key, info[index].addr, bucket);
        SlotFits(s, t);
        RefillStep(s, ids, nNew, info, table, done, t, index);
        TableKeys(s, ids, nNew, info, table, done);
        if slot !in table && info[index].refCount < NEW_BUCKETS_PER_ADDRESS {
          info := info[index := info[index].(refCount := info[index].refCount + 1)];
          table := table[slot := index];
        }
        done := done + {t};
      }
    }
    assert slots[..|row|] == slots;
    assert done == Before(s.news, bucket + 1) by { RowComplete(s, bucket); }
  }

  lemma RowComplete(s: State, bucket: nat)
    requires Consistent(s)
    ensures Before(s.news, bucket) + (set t | t in Filled(s.news, bucket, BUCKET_SIZE)) == Before(s.news, bucket + 1)
  {
    FilledMembers(s.news, bucket, BUCKET_SIZE);
  }

  lemma TableKeys(s: State, ids: seq<int>, nNew: nat, info: Infos, table: Table, done: set<Slot>)
    requires Refilled(s, ids, nNew, info, table, done)
    ensures table.Keys == done
  {
  }

  lemma SlotFits(s: State, t: Slot)
    requires Consistent(s) && t in s.news
    ensures s.news[t] in s.info && t == NewSlot(s.h, s.key, s.info[s.news[t]].addr, t.bucket)
  {
  }

  // ----- The round trip -----

  /** State `r` is state `s` with entry number `ids[k]` renamed to `k`; what is only kept in memory starts afresh. */
  ghost predicate Renamed(s: State, r: State, ids: seq<int>) {
    && r.h == s.h && r.key == s.key && r.nNew == s.nNew && r.nTried == s.nTried && r.nIdCount == |ids|
    && Distinct(ids) && (forall id :: id in s.info <==> id in ids)
    && SameEntries(s.info, r.info, ids) && SameAddrMap(s.byAddr, r.byAddr, ids)
    && |r.random| == |ids| && (forall k :: 0 <= k < |ids| ==> r.random[k] == k)
    && SameTable(s.news, r.news, ids) && SameTable(s.tried, r.tried, ids)
  }

  ghost predicate SameEntries(a: Infos, b: Infos, ids: seq<int>) {
    && (forall k :: k in b <==> 0 <= k < |ids|)
    && (forall k :: 0 <= k < |ids| ==> ids[k] in a && SameStored(b[k], a[ids[k]]) && b[k].randomPos == k)
  }

  ghost predicate SameAddrMap(a: map<nat, int>, b: map<nat, int>, ids: seq<int>) {
    && (forall ip :: ip in a <==> ip in b)
    && (forall ip :: ip in b ==> 0 <= b[ip] < |ids| && ids[b[ip]] == a[ip])
  }

  ghost predicate SameTable(a: Table, b: Table, ids: seq<int>) {
    a.Keys == b.Keys && forall t :: t in b ==> 0 <= b[t] < |ids| && ids[b[t]] == a[t]
  }

  /** All that is written, and the standing in the tables. */
  ghost predicate SameStored(a: AddrInfo, b: AddrInfo) {
    && a == Load(Store(b)).(inTried := b.inTried, refCount := b.refCount, randomPos := a.randomPos)
  }

  /** The list names every entry once, those of the new table first. */
  ghost predicate Arranged(s: State, ids: seq<int>, nNew: nat) {
    && Distinct(ids) && (forall id :: id in s.info <==> id in ids)
    && nNew == s.nNew && |ids| == s.nNew + s.nTried
    && forall k :: 0 <= k < |ids| ==> ids[k] in s.info && s.info[ids[k]].inTried == (k >= nNew)
  }

  lemma ListsJoin(s: State, order: seq<int>, news: seq<int>, tried: seq<int>)
    requires FullWalk(s.info, order) && Lists(s.info, order, news, false) && Lists(s.info, order, tried, true)
    requires |news| == s.nNew && |tried| == s.nTried
    ensures Arranged(s, news + tried, |news|)
  {
    var ids := news + tried;
    forall id ensures id in s.info <==> id in ids {
      if id in s.info { assert id in order; }
    }
  }

  lemma RenamedConsistent(s: State, r: State, ids: seq<int>, nNew: nat)
    requires Consistent(s) && Renamed(s, r, ids) && Arranged(s, ids, nNew)
    ensures Consistent(r)
  {
    RenamedCounts(s, r, ids, nNew);
    assert nNew == s.nNew == r.nNew && r.nTried == s.nTried == |ids| - nNew;
    hide Renamed, Arranged;
    RenamedNew(s, r, ids);
    RenamedTried(s, r, ids);
    RenamedRest(s, r, ids);
  }

  lemma RenamedCounts(s: State, r: State, ids: seq<int>, nNew: nat)
    requires Renamed(s, r, ids) && Arranged(s, ids, nNew) && nNew <= |ids|
    ensures |NewIds(r.info)| == nNew && |TriedIds(r.info)| == |ids| - nNew
  {
    var a, b := r.random[..nNew], r.random[nNew..];
    forall k | k in NewIds(r.info) ensures k in a { assert a[k] == k; }
    forall k | k in TriedIds(r.info) ensures k in b { assert b[k - nNew] == k; }
    DistinctSize(a, NewIds(r.info));
    DistinctSize(b, TriedIds(r.info));
  }

  lemma SameHolders(a: Table, b: Table, ids: seq<int>, k: int)
    requires SameTable(a, b, ids) && Distinct(ids) && 0 <= k < |ids|
    ensures Refs(b, k) == Refs(a, ids[k])
  {
    forall t: Slot ensures t in Refs(b, k) <==> t in Refs(a, ids[k]) {
      assert t in a.Keys <==> t in b.Keys;
    }
  }

  lemma RenamedNew(s: State, r: State, ids: seq<int>)
    requires Consistent(s) && Renamed(s, r, ids)
    ensures NewOk(r.h, r.key, r.info, r.news)
  {
    forall k | k in r.info
      ensures r.info[k].refCount == |Refs(r.news, k)| && (r.info[k].inTried ==> r.info[k].refCount == 0)
    {
      var id := ids[k];
      assert id in s.info && s.info[id].refCount == |Refs(s.news, id)|;
      SameHolders(s.news, r.news, ids, k);
    }
    forall t | t in r.news
      ensures r.news[t] in r.info && t.bucket < NEW_BUCKET_COUNT
      ensures t == NewSlot(r.h, r.key, r.info[r.news[t]].addr, t.bucket)
    {
      assert s.news[t] in s.info;
    }
  }

  lemma RenamedTried(s: State, r: State, ids: seq<int>)
    requires Consistent(s) && Renamed(s, r, ids)
    ensures TriedOk(r.h, r.key, r.info, r.tried)
  {
    forall t | t in r.tried
      ensures r.tried[t] in r.info && r.info[r.tried[t]].inTried && t == TriedSlot(r.h, r.key, r.info[r.tried[t]].addr)
    {
      assert s.tried[t] in s.info;
    }
    forall k | k in r.info && r.info[k].inTried
      ensures var t := TriedSlot(r.h, r.key, r.info[k].addr); t in r.tried && r.tried[t] == k
    {
      var id := ids[k];
      assert id in s.info && s.tried[TriedSlot(s.h, s.key, s.info[id].addr)] == id;
    }
  }

  lemma RenamedRest(s: State, r: State, ids: seq<int>)
    requires Consistent(s) && Renamed(s, r, ids)
    ensures AddrOk(r.info, r.byAddr) && RandomOk(r.info, r.random) && EntriesOk(r.info, {}, r.nIdCount)
  {
    RenamedAddrs(s, r, ids);
    RenamedEntries(s, r, ids);
    hide AddrOk, EntriesOk, Between;
  }

  lemma RenamedEntries(s: State, r: State, ids: seq<int>)
    requires Consistent(s) && Renamed(s, r, ids)
    ensures EntriesOk(r.info, {}, r.nIdCount)
  {
    hide AddrOk, RandomOk, NewOk, TriedOk;
    forall k | k in r.info
      ensures r.info[k].lastSuccess >= 0 && r.info[k].refCount <= NEW_BUCKETS_PER_ADDRESS
      ensures !r.info[k].inTried ==> r.info[k].refCount >= 1
    {
      var id := ids[k];
      assert id in s.info && SameStored(r.info[k], s.info[id]);
    }
  }

  lemma RenamedAddrs(s: State, r: State, ids: seq<int>)
    requires Consistent(s) && Renamed(s, r, ids)
    ensures AddrOk(r.info, r.byAddr)
  {
    hide RandomOk, NewOk, TriedOk, EntriesOk;
    forall k | k in r.info ensures r.info[k].addr.ip in r.byAddr && r.byAddr[r.info[k].addr.ip] == k {
      var id := ids[k];
      assert id in s.info && s.info[id].addr.ip in s.byAddr && s.byAddr[s.info[id].addr.ip] == id;
    }
    forall ip | ip in r.byAddr ensures r.byAddr[ip] in r.info && r.info[r.byAddr[ip]].addr.ip == ip {
      assert s.byAddr[ip] in s.info;
    }
  }

  /** What the lists and the stream say about a consistent state. */
  lemma Prepared(s: State, order: seq<int>, news: seq<int>, tried: seq<int>, inp: Stream)
    requires Consistent(s) && FullWalk(s.info, order) && Written(s, news, tried, inp)
    requires Lists(s.info, order, news, false) && Lists(s.info, order, tried, true)
    ensures |inp.newInfos| == |news| == s.nNew && |inp.triedInfos| == |tried| == s.nTried
    ensures StoredAs(s.info, news + tried, inp.newInfos + inp.triedInfos)
    ensures DistinctAddrs(inp.newInfos + inp.triedInfos)
    ensures DistinctSeats(s.h, s.key, inp.newInfos + inp.triedInfos, |news|)
  {
    ListSize(s, order, news, false);
    ListSize(s, order, tried, true);
    ListsJoin(s, order, news, tried);
    var ids, all := news + tried, inp.newInfos + inp.triedInfos;
    assert StoredAs(s.info, ids, all);
    forall j, k | 0 <= j < k < |all| ensures all[j].addr.ip != all[k].addr.ip {
      AddrOf(s, ids[j]);
      AddrOf(s, ids[k]);
    }
    forall j, k | |news| <= j < k < |all| ensures TriedSlot(s.h, s.key, all[j].addr) != TriedSlot(s.h, s.key, all[k].addr) {
      SeatOf(s, ids[j]);
      SeatOf(s, ids[k]);
    }
  }

  lemma AddrOf(s: State, id: int)
    requires Consistent(s) && id in s.info
    ensures s.info[id].addr.ip in s.byAddr && s.byAddr[s.info[id].addr.ip] == id
  {
  }

  lemma SeatOf(s: State, id: int)
    requires Consistent(s) && id in s.info && s.info[id].inTried
    ensures var t := TriedSlot(s.h, s.key, s.info[id].addr); t in s.tried && s.tried[t] == id
  {
  }

  // ----- The tables are large enough -----

  lemma {:induction false} RowBound(slots: set<Slot>, bucket: nat, n: nat)
    requires forall t :: t in slots ==> t.bucket == bucket && t.pos < n
    ensures |slots| <= n
  {
    if n == 0 {
      assert slots == {};
    } else {
      RowBound(slots - {Slot(bucket, n - 1)}, bucket, n - 1);
    }
  }

  lemma {:induction false} GridBound(slots: set<Slot>, n: nat)
    requires forall t :: t in slots ==> t.bucket < n && t.pos < BUCKET_SIZE
    ensures |slots| <= n * BUCKET_SIZE
  {
    if n == 0 {
      assert slots == {};
    } else {
      var row := set t | t in slots && t.bucket == n - 1;
      assert slots == (slots - row) + row;
      RowBound(row, n - 1, BUCKET_SIZE);
      GridBound(slots - row, n - 1);
    }
  }

  /** Each of the numbers stands somewhere in the table. */
  lemma {:induction false} Covered(ids: set<int>, table: Table)
    requires forall id :: id in ids ==> Refs(table, id) != {}
    ensures |ids| <= |table.Keys|
    decreases |table.Keys|
  {
    if table.Keys == {} {
      SomeNumber(ids);
    } else {
      var t :| t in table.Keys;
      var rest := table - {t};
      forall id | id in ids - {table[t]} ensures Refs(rest, id) != {} {
        assert Refs(rest, id) == Refs(table, id);
      }
      assert rest.Keys == table.Keys - {t};
      Covered(ids - {table[t]}, rest);
    }
  }

  lemma Capacity(s: State)
    requires Consistent(s)
    ensures s.nNew <= NEW_BUCKET_COUNT * BUCKET_SIZE && s.nTried <= TRIED_BUCKET_COUNT * BUCKET_SIZE
  {
    forall id | id in TriedIds(s.info) ensures Refs(s.tried, id) != {} {
      SeatOf(s, id);
      assert TriedSlot(s.h, s.key, s.info[id].addr) in Refs(s.tried, id);
    }
    Covered(NewIds(s.info), s.news);
    Covered(TriedIds(s.info), s.tried);
    GridBound(s.news.Keys, NEW_BUCKET_COUNT);
    GridBound(s.tried.Keys, TRIED_BUCKET_COUNT);
  }

  /** Reads a stream that was written from a consistent state: it gives the same tables and entries back under new
      numbers, and nothing is lost. */
  method Unserialize(h: Hashes, inp: Stream, ghost s: State, ghost order: seq<int>)
    returns (r: State, nLost: int, nLostUnk: int)
    requires Consistent(s) && s.h == h && FullWalk(s.info, order)
    requires Written(s, Listed(s.info, order, false), Listed(s.info, order, true), inp)
    ensures Renamed(s, r, Listed(s.info, order, false) + Listed(s.info, order, true)) && Consistent(r)
    ensures nLost == nLostUnk == 0
  {
    hide Listed;
    ghost var news, tried := Listed(s.info, order, false), Listed(s.info, order, true);
    ListedIs(s.info, order, false);
    ListedIs(s.info, order, true);
    ghost var ids, all := news + tried, inp.newInfos + inp.triedInfos;
    Prepared(s, order, news, tried, inp);
    Capacity(s);
    if inp.format > V3_BIP155 || inp.keySize != 32 {
      assert false;
      return;
    }
    var nUBuckets := inp.nUBuckets - 0x4000_0000;
    var nNew, nTried := inp.nNew, inp.nTried;
    if nNew > NEW_BUCKET_COUNT * BUCKET_SIZE || nTried > TRIED_BUCKET_COUNT * BUCKET_SIZE {
      assert false;
      return;
    }
    assert all[..nNew] == inp.newInfos && all[nNew..] == inp.triedInfos;
    hide Between, Lists, Restored, Seated, DistinctAddrs, DistinctSeats, NoReferences, Renamed;
    var info, byAddr, random := ReadNew(inp.newInfos, nNew, all);
    var table, nIdCount;
    info, byAddr, random, table, nIdCount, nLost :=
      ReadTried(h, inp.key, inp.triedInfos, nTried, nNew, all, info, byAddr, random);
    nTried := nTried - nLost;
    var base := info;
    assert ids[..nNew] == news;
    var slots;
    info, slots := ReadRows(h, inp.key, nUBuckets, inp.rows, nNew, base, s, ids, byAddr, random, all);
    RefsAside(base, info, byAddr, random, all, nNew);
    r := State(h, inp.key, info, byAddr, random, slots, table, nNew, nTried, nIdCount);
    ListsJoin(s, order, news, tried);
    Finished(s, r, ids, nNew, all);
    nLostUnk := Prune(r);
  }

  /** Writing a consistent state and reading it back gives that state under new numbers. */
  method Reload(s: State, order: seq<int>) returns (r: State)
    requires Consistent(s) && FullWalk(s.info, order)
    ensures Renamed(s, r, Listed(s.info, order, false) + Listed(s.info, order, true)) && Consistent(r)
  {
    hide Between, Written, Renamed, Listed;
    var out := Serialize(s, order);
    var nLost, nLostUnk;
    r, nLost, nLostUnk := Unserialize(s.h, out, s, order);
  }

  lemma RefsAside(base: Infos, info: Infos, byAddr: map<nat, int>, random: seq<int>, all: seq<Stored>, nNew: nat)
    requires Restored(base, byAddr, random, all, nNew, |all|) && SameButRefs(base, info)
    ensures Restored(info, byAddr, random, all, nNew, |all|)
  {
    forall k ensures k in info <==> 0 <= k < |all| {
      assert k in info.Keys <==> k in base.Keys;
    }
  }

  method ReadRows(h: Hashes, key: nat, nUBuckets: nat, rows: seq<seq<int>>, nNew: nat, base: Infos,
                  ghost s: State, ghost ids: seq<int>, ghost byAddr: map<nat, int>, ghost random: seq<int>, ghost all: seq<Stored>)
    returns (info: Infos, table: Table)
    requires Consistent(s) && s.h == h && s.key == key && Distinct(ids) && nNew <= |ids|
    requires nUBuckets == |rows| == NEW_BUCKET_COUNT
    requires Restored(base, byAddr, random, all, nNew, |all|) && NoReferences(base) && StoredAs(s.info, ids, all)
    requires forall b :: 0 <= b < |rows| ==> RowOf(s.news, ids[..nNew], Filled(s.news, b, BUCKET_SIZE), rows[b])
    ensures SameButRefs(base, info)
    ensures Refilled(s, ids, nNew, info, table, s.news.Keys)
  {
    info, table := base, map[];
    NothingRefilled(s, ids, nNew, base, byAddr, random, all);
    SameAddresses(s, ids, nNew, base, byAddr, random, all);
    AllBefore(s);
    hide Between, Refilled, Restored, RowOf, Filled, Before, SamePlaces;
    for b := 0 to nUBuckets
      invariant SameButRefs(base, info) && SamePlaces(s, ids, nNew, info)
      invariant Refilled(s, ids, nNew, info, table, Before(s.news, b))
    {
      ghost var was := info;
      info, table := ReadRow(h, key, rows[b], b, nNew, info, table, s, ids);
      RefsOnly(base, was, info);
    }
  }

  lemma RefsOnly(a: Infos, b: Infos, c: Infos)
    requires SameButRefs(a, b) && SameButRefs(b, c)
    ensures SameButRefs(a, c)
  {
  }

  lemma NothingRefilled(s: State, ids: seq<int>, nNew: nat, info: Infos, byAddr: map<nat, int>, random: seq<int>, all: seq<Stored>)
    requires Restored(info, byAddr, random, all, nNew, |all|) && NoReferences(info) && |ids| == |all|
    ensures Refilled(s, ids, nNew, info, map[], Before(s.news, 0))
  {
    assert Before(s.news, 0) == {};
    forall k | k in info && k < nNew ensures |Refs(s.news, ids[k]) * {}| == 0 {
      assert Refs(s.news, ids[k]) * {} == {};
    }
  }

  lemma SameAddresses(s: State, ids: seq<int>, nNew: nat, info: Infos, byAddr: map<nat, int>, random: seq<int>, all: seq<Stored>)
    requires Restored(info, byAddr, random, all, nNew, |all|) && StoredAs(s.info, ids, all) && nNew <= |ids|
    ensures SamePlaces(s, ids, nNew, info)
  {
  }

  lemma AllBefore(s: State)
    requires Consistent(s)
    ensures Before(s.news, NEW_BUCKET_COUNT) == s.news.Keys
  {
  }

  lemma Finished(s: State, r: State, ids: seq<int>, nNew: nat, all: seq<Stored>)
    requires Consistent(s) && Arranged(s, ids, nNew) && StoredAs(s.info, ids, all) && nNew <= |all|
    requires r.h == s.h && r.key == s.key && r.nNew == s.nNew && r.nTried == s.nTried && r.nIdCount == |all|
    requires Restored(r.info, r.byAddr, r.random, all, nNew, |all|)
    requires Seated(r.h, r.key, r.tried, all, nNew, |all|)
    requires Refilled(s, ids, nNew, r.info, r.news, s.news.Keys)
    ensures Renamed(s, r, ids) && Consistent(r)
  {
    FinishedEntries(s, r, ids, nNew, all);
    FinishedAddrs(s, r, ids, nNew, all);
    FinishedTables(s, r, ids, nNew, all);
    assert Renamed(s, r, ids) by {
      assert |ids| == |all|;
      hide Between, SameEntries, SameAddrMap, SameTable, Seated, Refilled;
    }
    hide Renamed, Between, Restored, Refilled, Arranged, Seated;
    RenamedConsistent(s, r, ids, nNew);
  }

  lemma FinishedEntries(s: State, r: State, ids: seq<int>, nNew: nat, all: seq<Stored>)
    requires Consistent(s) && StoredAs(s.info, ids, all) && Arranged(s, ids, nNew)
    requires Restored(r.info, r.byAddr, r.random, all, nNew, |all|)
    requires CountsRefilled(s, ids, nNew, r.info, s.news.Keys)
    ensures SameEntries(s.info, r.info, ids)
  {
    forall k | 0 <= k < |ids| ensures SameStored(r.info[k], s.info[ids[k]]) && r.info[k].randomPos == k {
      FullCount(s, ids[k]);
      hide Between;
      assert all[k] == Store(s.info[ids[k]]);
    }
  }

  lemma FullCount(s: State, id: int)
    requires Consistent(s) && id in s.info
    ensures s.info[id].refCount == |Refs(s.news, id) * s.news.Keys|
    ensures s.info[id].inTried ==> s.info[id].refCount == 0
  {
    assert Refs(s.news, id) * s.news.Keys == Refs(s.news, id);
  }

  lemma FinishedAddrs(s: State, r: State, ids: seq<int>, nNew: nat, all: seq<Stored>)
    requires Consistent(s) && StoredAs(s.info, ids, all) && Arranged(s, ids, nNew)
    requires Restored(r.info, r.byAddr, r.random, all, nNew, |all|)
    ensures SameAddrMap(s.byAddr, r.byAddr, ids)
  {
    forall ip | ip in r.byAddr ensures ip in s.byAddr && ids[r.byAddr[ip]] == s.byAddr[ip] {
      AddrOf(s, ids[r.byAddr[ip]]);
    }
    forall ip | ip in s.byAddr ensures ip in r.byAddr {
      var id := s.byAddr[ip];
      assert id in s.info && s.info[id].addr.ip == ip && id in ids;
      var k :| 0 <= k < |ids| && ids[k] == id;
      assert all[k].addr.ip in r.byAddr;
    }
  }

  lemma FinishedTables(s: State, r: State, ids: seq<int>, nNew: nat, all: seq<Stored>)
    requires Consistent(s) && StoredAs(s.info, ids, all) && Arranged(s, ids, nNew) && r.h == s.h && r.key == s.key
    requires nNew <= |all| && Seated(r.h, r.key, r.tried, all, nNew, |all|)
    requires SlotsRefilled(s, ids, nNew, r.news, s.news.Keys)
    ensures SameTable(s.news, r.news, ids) && SameTable(s.tried, r.tried, ids)
  {
    forall t | t in r.tried ensures t in s.tried && ids[r.tried[t]] == s.tried[t] {
      SeatOf(s, ids[r.tried[t]]);
    }
    forall t | t in s.tried ensures t in r.tried {
      var id := s.tried[t];
      assert id in s.info && s.info[id].inTried && t == TriedSlot(s.h, s.key, s.info[id].addr) && id in ids;
      var k :| 0 <= k < |ids| && ids[k] == id;
      assert all[k].addr == s.info[id].addr;
    }
  }

  /** Looks for entries that hold no slot; there are none. */
  method Prune(r: State) returns (nLostUnk: int)
    requires Consistent(r)
    ensures nLostUnk == 0
  {
    nLostUnk := 0;
    var todo := r.info.Keys;
    while todo != {}
      invariant todo <= r.info.Keys && nLostUnk == 0
      decreases |todo|
    {
      SomeNumber(todo);
      var id :| id in todo;
      if !r.info[id].inTried && r.info[id].refCount == 0 {
        assert false;
        nLostUnk := nLostUnk + 1;
      }
      todo := todo - {id};
    }
  }
}

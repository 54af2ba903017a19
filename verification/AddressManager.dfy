/** The address manager: entries known by number and by network address, a random order, and the tables of new and
    of tried entries. */
module AddressManager {
  import opened AddrTables
  import Arith
  import opened Basics

  const ADDRMAN_HORIZON_DAYS: int := 30
  const ADDRMAN_RETRIES: int := 3
  const ADDRMAN_MAX_FAILURES: int := 10
  const ADDRMAN_MIN_FAIL_DAYS: int := 7
  const ADDRMAN_REPLACEMENT_HOURS: int := 4
  const ADDRMAN_SET_TRIED_COLLISION_SIZE: nat := 10
  const ADDRMAN_GETADDR_MAX_PCT: nat := 23
  const ADDRMAN_GETADDR_MAX: nat := 2500

  predicate IsTerrible(a: AddrInfo, now: int) {
    !(a.lastTry != 0 && a.lastTry >= now - 60) &&
    (|| a.time > now + 10 * 60
     || a.time == 0 || now - a.time > ADDRMAN_HORIZON_DAYS * 24 * 60 * 60
     || (a.lastSuccess == 0 && a.attempts >= ADDRMAN_RETRIES)
     || (now - a.lastSuccess > ADDRMAN_MIN_FAIL_DAYS * 24 * 60 * 60 && a.attempts >= ADDRMAN_MAX_FAILURES))
  }

  // ----- What every operation keeps across a step -----

  /** Between two states: numbers are never reused, an entry keeps its address, and a filled tried slot stays
      filled. */
  ghost predicate Step(s: State, r: State) {
    && r.h == s.h && r.key == s.key && r.nIdCount >= s.nIdCount
    && s.tried.Keys <= r.tried.Keys
    && forall id :: id in r.info ==> if id in s.info then r.info[id].addr == s.info[id].addr else id >= s.nIdCount
  }

  lemma StepTransitive(a: State, b: State, c: State)
    requires Step(a, b) && Step(b, c) && forall id :: id in a.info ==> id < a.nIdCount
    ensures Step(a, c)
  {
  }

  /** The entries waiting to be tested are, if still known, bound for a tried slot that is filled. */
  ghost predicate CollisionsOk(s: State, collisions: set<int>) {
    forall id :: id in collisions ==>
      && 0 <= id < s.nIdCount
      && (id in s.info ==> TriedSlot(s.h, s.key, s.info[id].addr) in s.tried)
  }

  lemma CollisionsKept(s: State, r: State, collisions: set<int>)
    requires CollisionsOk(s, collisions) && Step(s, r)
    ensures CollisionsOk(r, collisions)
  {
  }

  class AddrMan {
    const h: Hashes
    /** Whether an address is valid, and whether it can be routed to. */
    const valid: Service -> bool
    const routable: Service -> bool

    var nIdCount: nat
    var mapInfo: map<int, AddrInfo>
    var mapAddr: map<nat, int>
    var vRandom: seq<int>
    var nTried: int
    var vvTried: map<Slot, int>
    var nNew: int
    var vvNew: map<Slot, int>
    var nLastGood: int
    var triedCollisions: set<int>
    var nKey: nat

    function S(): (s: State)
      reads this
    {
      State(h, nKey, mapInfo, mapAddr, vRandom, vvNew, vvTried, nNew, nTried, nIdCount)
    }

    ghost predicate Valid()
      reads this
    {
      Consistent(S()) && CollisionsOk(S(), triedCollisions) && nKey != 0
    }

    // ----- Single changes -----

    method Create(a: AddrInfo, ghost limbo: set<int>, ghost uncounted: int) returns (nId: int)
      requires Between(S(), limbo, uncounted) && a.addr.ip !in mapAddr
      requires a.refCount == 0 && !a.inTried && a.lastTry >= 0 && a.lastSuccess >= 0
      modifies `nIdCount, `mapInfo, `mapAddr, `vRandom
      ensures nId == old(nIdCount) && S() == Created(old(S()), a)
      ensures Between(S(), limbo + {nId}, uncounted + 1)
    {
      hide Between;
      AddrTables.Create(S(), a, limbo, uncounted);
      nId := nIdCount;
      nIdCount := nIdCount + 1;
      mapInfo := mapInfo[nId := a];
      mapAddr := mapAddr[a.addr.ip := nId];
      mapInfo := mapInfo[nId := mapInfo[nId].(randomPos := |vRandom|)];
      vRandom := vRandom + [nId];
      assert mapInfo == old(mapInfo)[nId := a.(randomPos := old(|vRandom|))];
    }

    method SwapRandom(i: nat, j: nat, ghost limbo: set<int>, ghost uncounted: int)
      requires Between(S(), limbo, uncounted) && i < |vRandom| && j < |vRandom|
      modifies `mapInfo, `vRandom
      ensures Between(S(), limbo, uncounted)
      ensures S() == if i == j then old(S()) else Swapped(old(S()), i, j)
    {
      if i == j {
        return;
      }
      Swap(S(), i, j, limbo, uncounted);
      var id1, id2 := vRandom[i], vRandom[j];
      mapInfo := mapInfo[id1 := mapInfo[id1].(randomPos := j)];
      mapInfo := mapInfo[id2 := mapInfo[id2].(randomPos := i)];
      vRandom := vRandom[i := id2];
      vRandom := vRandom[j := id1];
    }

    method Delete(nId: int, ghost limbo: set<int>, ghost uncounted: int)
      requires Between(S(), limbo, uncounted)
      requires nId in mapInfo && nId in limbo && mapInfo[nId].refCount == 0
      modifies `mapInfo, `mapAddr, `vRandom, `nNew
      ensures Between(S(), limbo - {nId}, uncounted)
      ensures S() == Deleted(old(S()), nId)
      ensures OnlyForgets(old(mapInfo), mapInfo, {nId})
    {
      hide Between, OnlyForgets;
      HasPosition(S(), nId, limbo, uncounted);
      AddrTables.Delete(S(), nId, limbo, uncounted);
      SwapRandom(mapInfo[nId].randomPos, |vRandom| - 1, limbo, uncounted);
      vRandom := vRandom[..|vRandom| - 1];
      mapAddr := mapAddr - {mapInfo[nId].addr.ip};
      mapInfo := mapInfo - {nId};
      nNew := nNew - 1;
    }

    /** Empties a slot of the new table; the entry there is forgotten if it holds no other slot. */
    method ClearNew(slot: Slot, ghost limbo: set<int>, ghost uncounted: int)
      requires Between(S(), limbo, uncounted) && (slot in vvNew ==> vvNew[slot] !in limbo)
      modifies `mapInfo, `mapAddr, `vRandom, `nNew, `vvNew
      ensures Between(S(), limbo, uncounted) && vvNew == old(vvNew) - {slot}
      ensures if slot !in old(vvNew) then S() == old(S()) else Loses(old(mapInfo), mapInfo, old(vvNew)[slot])
    {
      if slot in vvNew {
        ClearSlot(S(), slot, limbo, uncounted);
        hide Between, Loses, OnlyForgets;
        var id := vvNew[slot];
        mapInfo := mapInfo[id := mapInfo[id].(refCount := mapInfo[id].refCount - 1)];
        vvNew := vvNew - {slot};
        assert S() == Released(old(S()), slot);
        if mapInfo[id].refCount == 0 {
          Delete(id, limbo + {id}, uncounted);
        }
      }
    }

    /** Gives an entry a free new slot. */
    method TakeSlot(slot: Slot, nId: int, ghost limbo: set<int>, ghost uncounted: int)
      requires Between(S(), limbo, uncounted) && nId in mapInfo && !mapInfo[nId].inTried && slot !in vvNew
      requires slot.bucket < NEW_BUCKET_COUNT && slot == NewSlot(h, nKey, mapInfo[nId].addr, slot.bucket)
      requires mapInfo[nId].refCount < NEW_BUCKETS_PER_ADDRESS
      modifies `mapInfo, `vvNew
      ensures Between(S(), limbo - {nId}, uncounted)
      ensures vvNew == old(vvNew)[slot := nId]
      ensures mapInfo == old(mapInfo)[nId := old(mapInfo)[nId].(refCount := old(mapInfo)[nId].refCount + 1)]
    {
      hide Between;
      Take(S(), slot, nId, limbo, uncounted);
      mapInfo := mapInfo[nId := mapInfo[nId].(refCount := mapInfo[nId].refCount + 1)];
      vvNew := vvNew[slot := nId];
      assert S() == Taken(old(S()), slot, nId);
    }

    // ----- Moving an entry to the tried table -----

    /** Takes an entry out of every new slot. */
    method RemoveFromNew(nId: int)
      requires Between(S(), {}, 0) && nId in mapInfo && !mapInfo[nId].inTried
      modifies `mapInfo, `vvNew
      ensures Between(S(), {nId}, 0)
      ensures mapInfo == old(mapInfo)[nId := old(mapInfo)[nId].(refCount := 0)]
      ensures vvNew == Without(old(vvNew), nId)
    {
      hide Between;
      IntoLimbo(S(), {}, nId, 0);
      assert {} + {nId} == {nId};
      var a := mapInfo[nId].addr;
      assert mapInfo[nId := mapInfo[nId].(refCount := mapInfo[nId].refCount)] == mapInfo;
      for bucket := 0 to NEW_BUCKET_COUNT
        invariant Between(S(), {nId}, 0)
        invariant nId in mapInfo && mapInfo == old(mapInfo)[nId := old(mapInfo)[nId].(refCount := mapInfo[nId].refCount)]
        invariant forall b :: 0 <= b < bucket ==> !Holds(vvNew, NewSlot(h, nKey, a, b), nId)
        invariant Without(vvNew, nId) == Without(old(vvNew), nId)
      {
        var slot := NewSlot(h, nKey, a, bucket);
        if slot in vvNew && vvNew[slot] == nId {
          ghost var s := S();
          Release(s, slot, {nId}, 0);
          assert {nId} + {nId} == {nId};
          vvNew := vvNew - {slot};
          mapInfo := mapInfo[nId := mapInfo[nId].(refCount := mapInfo[nId].refCount - 1)];
          assert S() == Released(s, slot) && Without(vvNew, nId) == Without(s.news, nId);
        }
      }
      NoSlotLeft(S(), nId);
      assert Without(vvNew, nId) == vvNew;
    }

    /** Takes the entry in a tried slot out of the tried table. */
    method EvictTried(slot: Slot, nId: int) returns (evict: int)
      requires Between(S(), {nId}, 1) && slot in vvTried && nId in mapInfo && !mapInfo[nId].inTried
      modifies `mapInfo, `vvTried, `nTried
      ensures evict in old(mapInfo) && evict != nId && evict == old(vvTried)[slot]
      ensures Between(S(), {nId, evict}, 2) && vvTried == old(vvTried) - {slot}
      ensures mapInfo == old(mapInfo)[evict := old(mapInfo)[evict].(inTried := false)] && mapInfo[evict].refCount == 0
    {
      hide Between;
      Evict(S(), slot, {nId}, 1);
      evict := vvTried[slot];
      mapInfo := mapInfo[evict := mapInfo[evict].(inTried := false)];
      vvTried := vvTried - {slot};
      nTried := nTried - 1;
      assert S() == Evicted(old(S()), slot) && {nId} + {evict} == {nId, evict};
    }

    /** Enters an evicted entry into the new table, where it may push out another one. */
    method ReturnToNew(evict: int, nId: int) returns (ghost lost: int)
      requires Between(S(), {nId, evict}, 2) && nId in mapInfo && evict in mapInfo && evict != nId
      requires mapInfo[nId].refCount == mapInfo[evict].refCount == 0 && !mapInfo[evict].inTried
      modifies `mapInfo, `mapAddr, `vRandom, `nNew, `vvNew
      ensures Between(S(), {nId}, 1)
      ensures nId in mapInfo && mapInfo[nId].refCount == 0 && mapInfo[nId].inTried == old(mapInfo)[nId].inTried
      ensures evict in mapInfo && !mapInfo[evict].inTried && vvNew == Returned(old(S()), old(vvNew), evict)
      ensures Keeps(old(mapInfo), mapInfo, lost)
    {
      hide Between, Keeps;
      ghost var limbo := {nId, evict};
      var a := mapInfo[evict].addr;
      var space := SlotFrom(h, nKey, a, mapInfo[evict].source);
      lost := if space in vvNew then vvNew[space] else -1;
      if space in vvNew { HolderCounts(S(), space, limbo, 2); }
      ClearNew(space, limbo, 2);
      assert evict in mapInfo && nId in mapInfo && mapInfo[evict].refCount == mapInfo[nId].refCount == 0;
      ghost var t := mapInfo;
      LosesKeeps(old(mapInfo), t, lost);
      hide Loses;
      TakeSlot(space, evict, limbo, 2);
      KeepsOne(t, mapInfo, evict, nId);
      KeepsAfter(old(mapInfo), t, mapInfo, lost, nId);
      assert limbo - {evict} == {nId};
      Recount(S(), {nId}, 2, -1);
      nNew := nNew + 1;
    }

    /** Moves the entry in a tried slot back to the new table. */
    method MakeSpace(slot: Slot, nId: int) returns (ghost lost: int)
      requires Between(S(), {nId}, 1) && slot in vvTried
      requires nId in mapInfo && mapInfo[nId].refCount == 0 && !mapInfo[nId].inTried
      modifies `mapInfo, `mapAddr, `vRandom, `nNew, `vvNew, `vvTried, `nTried
      ensures Between(S(), {nId}, 1) && vvTried == old(vvTried) - {slot}
      ensures nId in mapInfo && mapInfo[nId].refCount == 0 && !mapInfo[nId].inTried
      ensures var evict := old(vvTried)[slot];
              evict in mapInfo && evict != nId && !mapInfo[evict].inTried && vvNew == Returned(old(S()), old(vvNew), evict)
      ensures Keeps(old(mapInfo), mapInfo, lost)
    {
      hide Between, Keeps, Returned;
      var evict := EvictTried(slot, nId);
      ghost var s := S();
      ghost var t := mapInfo;
      KeepsOne(old(mapInfo), t, evict, nId);
      lost := ReturnToNew(evict, nId);
      SameReturn(old(S()), s, s.news, evict);
      KeepsThen(old(mapInfo), t, mapInfo, nId, lost);
    }

    /** Moves an entry from the new to the tried table. */
    method MakeTried(nId: int) returns (ghost lost: int)
      requires Between(S(), {}, 0) && nId in mapInfo && !mapInfo[nId].inTried
      modifies `mapInfo, `mapAddr, `vRandom, `nNew, `vvNew, `vvTried, `nTried
      ensures Between(S(), {}, 0)
      ensures nId in mapInfo && mapInfo[nId].inTried
      ensures vvTried == old(vvTried)[TriedSlot(h, nKey, mapInfo[nId].addr) := nId]
      ensures var slot := TriedSlot(h, nKey, mapInfo[nId].addr);
              if slot in old(vvTried)
              then var evict := old(vvTried)[slot];
                   && evict in mapInfo && !mapInfo[evict].inTried
                   && vvNew == Returned(old(S()), Without(old(vvNew), nId), evict)
              else vvNew == Without(old(vvNew), nId)
      ensures Keeps(old(mapInfo), mapInfo, lost)
    {
      hide Between, Keeps, Without, Returned, TriedSlot;
      RemoveFromNew(nId);
      Recount(S(), {nId}, 0, 1);
      nNew := nNew - 1;
      var slot := TriedSlot(h, nKey, mapInfo[nId].addr);
      lost := -1;
      ghost var s := S();
      KeepsOne(old(mapInfo), s.info, nId, -1);
      if slot in vvTried {
        lost := MakeSpace(slot, nId);
        KeepsThen(old(mapInfo), s.info, mapInfo, -1, lost);
        SameReturn(old(S()), s, s.news, old(vvTried)[slot]);
      }
      ghost var t := mapInfo;
      KeepsAddr(old(mapInfo), t, lost, nId);
      EnterTried(slot, nId);
      KeepsOne(t, mapInfo, nId, nId);
      KeepsAfter(old(mapInfo), t, mapInfo, lost, nId);
    }

    /** Puts an entry that holds no new slot into its free tried slot. */
    method EnterTried(slot: Slot, nId: int)
      requires Between(S(), {nId}, 1) && nId in mapInfo && !mapInfo[nId].inTried && mapInfo[nId].refCount == 0
      requires slot !in vvTried && slot == TriedSlot(h, nKey, mapInfo[nId].addr)
      modifies `mapInfo, `vvTried, `nTried
      ensures Between(S(), {}, 0) && vvTried == old(vvTried)[slot := nId]
      ensures mapInfo == old(mapInfo)[nId := old(mapInfo)[nId].(inTried := true)]
    {
      hide Between;
      Enter(S(), slot, nId, {nId}, 1);
      vvTried := vvTried[slot := nId];
      nTried := nTried + 1;
      mapInfo := mapInfo[nId := mapInfo[nId].(inTried := true)];
      assert S() == Entered(old(S()), slot, nId) && {nId} - {nId} == {};
    }

    // ----- Operations -----

    /** The number of the entry at exactly this address and port. */
    function Known(addr: Service): (r: Option<int>)
      reads this
    {
      if addr.ip in mapAddr && mapAddr[addr.ip] in mapInfo && mapInfo[mapAddr[addr.ip]].addr == addr
      then Some(mapAddr[addr.ip]) else None
    }

    /** A new bucket that holds the entry, searched from a random one. */
    method FindBucket(nId: int, rnd: nat) returns (found: bool)
      requires Between(S(), {}, 0) && nId in mapInfo && !mapInfo[nId].inTried
      ensures found
    {
      hide Between;
      var n := 0;
      found := false;
      while n < NEW_BUCKET_COUNT && !found
        invariant n <= NEW_BUCKET_COUNT
        invariant !found ==> forall m :: 0 <= m < n ==>
          !Holds(vvNew, NewSlot(h, nKey, mapInfo[nId].addr, Turned(m, rnd)), nId)
      {
        var slot := NewSlot(h, nKey, mapInfo[nId].addr, Turned(n, rnd));
        found := slot in vvNew && vvNew[slot] == nId;
        n := n + 1;
      }
      SomeBucketHolds(S(), nId, rnd);
    }

    /** Records a success.  An entry outside the tried table then moves there, and what stood in its slot goes back to
        the new table; or, if that is to be tested first, it joins at most ten waiting ones. */
    method Good(addr: Service, testBeforeEvict: bool, nTime: int, rnd: nat) returns (ghost lost: int)
      requires Valid() && nTime >= 0
      modifies this
      ensures Valid() && Step(old(S()), S()) && nLastGood == nTime
      ensures old(Known(addr)).None? ==> S() == old(S()) && triedCollisions == old(triedCollisions)
      ensures old(Known(addr)).Some? ==>
          var id, slot := old(Known(addr)).value, TriedSlot(h, nKey, addr);
          var p := Succeeded(old(mapInfo)[id], nTime);
          var waits := !p.inTried && testBeforeEvict && slot in old(vvTried);
          && id in mapInfo && mapInfo[id].inTried == !waits && Keeps(old(mapInfo)[id := p], mapInfo, lost)
          && vvTried == (if p.inTried || waits then old(vvTried) else old(vvTried)[slot := id])
          && (p.inTried || waits ==> mapInfo == old(mapInfo)[id := p] && vvNew == old(vvNew))
          && (!p.inTried && !waits && slot in old(vvTried) ==>
                old(vvTried)[slot] in mapInfo && !mapInfo[old(vvTried)[slot]].inTried)
          && triedCollisions == old(triedCollisions) +
               if waits && |old(triedCollisions)| < ADDRMAN_SET_TRIED_COLLISION_SIZE then {id} else {}
    {
      hide Between, CollisionsOk, Keeps, Step;
      nLastGood := nTime;
      lost := -1;
      var known := Known(addr);
      if known.None? {
        Unmoved(S(), S(), -1, triedCollisions);
        return;
      }
      var nId := known.value;
      Touch(S(), nId, Succeeded(mapInfo[nId], nTime), {}, 0);
      mapInfo := mapInfo[nId := mapInfo[nId].(lastSuccess := nTime, lastTry := nTime, attempts := 0)];
      Unmoved(old(S()), S(), nId, triedCollisions);
      if mapInfo[nId].inTried {
        return;
      }
      AllNumbered(old(S()));
      ghost var s := S();
      lost := Promote(nId, testBeforeEvict, rnd);
      StepTransitive(old(S()), s, S());
    }

    /** Moves an entry to the tried table, unless its slot is filled and is to be tested first. */
    method Promote(nId: int, testBeforeEvict: bool, rnd: nat) returns (ghost lost: int)
      requires Valid() && nId in mapInfo && !mapInfo[nId].inTried
      modifies `mapInfo, `mapAddr, `vRandom, `nNew, `vvNew, `vvTried, `nTried, `triedCollisions
      ensures Valid() && Step(old(S()), S())
      ensures var slot := TriedSlot(h, nKey, old(mapInfo)[nId].addr);
              var waits := testBeforeEvict && slot in old(vvTried);
              && nId in mapInfo && mapInfo[nId].inTried == !waits && Keeps(old(mapInfo), mapInfo, lost)
              && vvTried == (if waits then old(vvTried) else old(vvTried)[slot := nId])
              && (waits ==> S() == old(S()))
              && (!waits && slot in old(vvTried) ==>
                    old(vvTried)[slot] in mapInfo && !mapInfo[old(vvTried)[slot]].inTried)
              && triedCollisions == old(triedCollisions) +
                   if waits && |old(triedCollisions)| < ADDRMAN_SET_TRIED_COLLISION_SIZE then {nId} else {}
    {
      hide Between, CollisionsOk, Keeps, Step;
      var found := FindBucket(nId, rnd);
      var slot := TriedSlot(h, nKey, mapInfo[nId].addr);
      lost := -1;
      Unmoved(S(), S(), nId, triedCollisions);
      if testBeforeEvict && slot in vvTried {
        MoreCollisions(S(), triedCollisions, nId);
        if |triedCollisions| < ADDRMAN_SET_TRIED_COLLISION_SIZE {
          triedCollisions := triedCollisions + {nId};
        }
      } else {
        lost := MakeTried(nId);
        Moved(old(S()), S(), lost);
        CollisionsKept(old(S()), S(), triedCollisions);
      }
    }

    /** Tries to give an entry one more new slot, the one its source selects; an entry that is left without any slot
        is forgotten again. */
    method Place(nId: int, source: nat, now: int)
      requires Between(S(), {nId}, 0) && nId in mapInfo && mapInfo[nId].refCount < NEW_BUCKETS_PER_ADDRESS
      requires !mapInfo[nId].inTried
      modifies `mapInfo, `mapAddr, `vRandom, `nNew, `vvNew
      ensures Between(S(), {}, 0)
      ensures var p := old(mapInfo)[nId];
              var slot := SlotFrom(h, nKey, p.addr, source);
              var take := MayTake(old(S()), slot, nId, p.refCount, now);
              && vvNew == (if take then old(vvNew)[slot := nId] else old(vvNew))
              && (nId in mapInfo <==> take || p.refCount != 0)
              && Keeps(old(mapInfo), mapInfo, if take && slot in old(vvNew) then old(vvNew)[slot] else nId)
    {
      hide Between;
      var a := mapInfo[nId].addr;
      var slot := SlotFrom(h, nKey, a, source);
      assert {nId} - {nId} == {};
      if slot in vvNew { HolderCounts(S(), slot, {nId}, 0); }
      if slot in vvNew && vvNew[slot] == nId {
        OutOfLimbo(S(), {nId}, nId, 0);
        assert old(vvNew)[slot := nId] == old(vvNew);
        return;
      }
      var insert := slot !in vvNew;
      if !insert {
        var existing := mapInfo[vvNew[slot]];
        insert := IsTerrible(existing, now) || (existing.refCount > 1 && mapInfo[nId].refCount == 0);
      }
      if insert {
        ClearNew(slot, {nId}, 0);
        TakeSlot(slot, nId, {nId}, 0);
      } else if mapInfo[nId].refCount == 0 {
        Delete(nId, {nId}, 0);
      } else {
        NonNegative(S(), nId, {nId}, 0);
        OutOfLimbo(S(), {nId}, nId, 0);
      }
    }

    method Add(addr: Service, time: int, services: bv64, source: nat, nTimePenalty: int, now: int, rnd: nat)
      returns (isNew: bool)
      requires Consistent(S())
      modifies this
      ensures Consistent(S()) && (old(Valid()) ==> Valid())
      ensures Step(old(S()), S()) && vvTried == old(vvTried) && triedCollisions == old(triedCollisions)
      ensures isNew <==> routable(addr) && addr.ip !in old(mapAddr)
      ensures !routable(addr) ==> S() == old(S())
      ensures routable(addr) ==>
          var known := addr.ip in old(mapAddr);
          var id := if known then old(mapAddr)[addr.ip] else old(nIdCount);
          var p := Met(old(S()), addr, time, services, source, nTimePenalty, now);
          var slot := SlotFrom(h, nKey, p.addr, source);
          var take := (known ==> Wanted(p, time, rnd)) && MayTake(old(S()), slot, id, p.refCount, now);
          && vvNew == (if take then old(vvNew)[slot := id] else old(vvNew))
          && (id in mapInfo <==> known || take)
          && Keeps(old(mapInfo)[id := p], mapInfo, if take && slot in old(vvNew) then old(vvNew)[slot] else id)
    {
      hide Between, CollisionsOk, Keeps, Step, MayTake, Met, Wanted, SlotFrom;
      ghost var sound := if CollisionsOk(S(), triedCollisions) then triedCollisions else {};
      NobodyWaits(S());
      Unmoved(S(), S(), -1, sound);
      if !routable(addr) {
        return false;
      }
      ghost var p := Met(S(), addr, time, services, source, nTimePenalty, now);
      isNew := addr.ip !in mapAddr;
      var nId, more := Meet(addr, time, services, source, nTimePenalty, now, rnd);
      if !more {
        Unmoved(old(S()), S(), nId, sound);
        return false;
      }
      ghost var t := S();
      Place(nId, source, now);
      ghost var slot := SlotFrom(h, nKey, p.addr, source);
      ghost var x := if MayTake(t, slot, nId, p.refCount, now) && slot in t.news then t.news[slot] else nId;
      Placed(old(S()), t, S(), nId, p, slot, x, now, sound);
    }

    /** Refreshes or creates the entry for an address; says whether it may get one more new slot. */
    method Meet(addr: Service, time: int, services: bv64, source: nat, nTimePenalty: int, now: int, rnd: nat)
      returns (nId: int, more: bool)
      requires Consistent(S())
      modifies `nIdCount, `mapInfo, `mapAddr, `vRandom, `nNew
      ensures var known := addr.ip in old(mapAddr);
              var p := Met(old(S()), addr, time, services, source, nTimePenalty, now);
              && nId == (if known then old(mapAddr)[addr.ip] else old(nIdCount))
              && (known <==> nId in old(mapInfo)) && nIdCount == old(nIdCount) + (if known then 0 else 1)
              && nId in mapInfo && mapInfo == old(mapInfo)[nId := mapInfo[nId]]
              && mapInfo[nId] == p.(randomPos := mapInfo[nId].randomPos)
              && (known ==> mapInfo[nId] == p && p.addr == old(mapInfo)[nId].addr)
              && (!p.inTried ==> (known <==> p.refCount != 0))
              && (more <==> known ==> Wanted(p, time, rnd))
              && (more ==> Between(S(), {nId}, 0) && !p.inTried && p.refCount < NEW_BUCKETS_PER_ADDRESS)
              && (!more ==> Consistent(S()) && mapAddr == old(mapAddr) && vRandom == old(vRandom) && nNew == old(nNew))
    {
      hide Between, Refreshed, Newcomer, Wanted;
      KnownByAddr(S());
      FreeNumber(S());
      if addr.ip in mapAddr {
        nId := mapAddr[addr.ip];
        RefreshedSame(mapInfo[nId], time, services, nTimePenalty, now);
        more := Refresh(nId, addr, time, services, nTimePenalty, now, rnd);
        if more {
          WantedIs(mapInfo[nId], time, rnd);
          IntoLimbo(S(), {}, nId, 0);
          assert {} + {nId} == {nId};
        }
      } else {
        nId := Enroll(addr, time, services, source, nTimePenalty);
        NewcomerIs(addr, time, services, source, nTimePenalty);
        more := true;
      }
    }

    /** A new entry, counted but not yet in any slot. */
    method Enroll(addr: Service, time: int, services: bv64, source: nat, nTimePenalty: int) returns (nId: int)
      requires Between(S(), {}, 0) && addr.ip !in mapAddr
      modifies `nIdCount, `mapInfo, `mapAddr, `vRandom, `nNew
      ensures Between(S(), {nId}, 0) && nIdCount == old(nIdCount) + 1
      ensures nId == old(nIdCount) && nId !in old(mapInfo) && nId in mapInfo && mapInfo[nId].refCount == 0 && !mapInfo[nId].inTried
      ensures mapInfo == old(mapInfo)[nId := Newcomer(addr, time, services, source, nTimePenalty).(randomPos := |old(vRandom)|)]
    {
      FreeNumber(S());
      hide Between;
      nId := Create(Newcomer(addr, time, services, source, nTimePenalty), {}, 0);
      assert {} + {nId} == {nId};
      Recount(S(), {nId}, 1, -1);
      nNew := nNew + 1;
    }

    /** Updates a known entry; says whether it may get one more new slot. */
    method Refresh(nId: int, addr: Service, time: int, services: bv64, nTimePenalty: int, now: int, rnd: nat)
      returns (more: bool)
      requires Between(S(), {}, 0) && nId in mapInfo
      modifies `mapInfo
      ensures Between(S(), {}, 0)
      ensures mapInfo == old(mapInfo)[nId := Refreshed(old(mapInfo)[nId], time, services, nTimePenalty, now)]
      ensures more <==> Wanted(mapInfo[nId], time, rnd)
      ensures mapInfo[nId].refCount <= NEW_BUCKETS_PER_ADDRESS && (!mapInfo[nId].inTried ==> mapInfo[nId].refCount >= 1)
    {
      hide Between, Wanted, Joined;
      var online := now - time < 24 * 60 * 60;
      var interval := if online then 60 * 60 else 24 * 60 * 60;
      var p := mapInfo[nId];
      if time != 0 && (p.time == 0 || p.time < time - interval - nTimePenalty) {
        p := p.(time := if time - nTimePenalty < 0 then 0 else time - nTimePenalty);
      }
      p := p.(services := Joined(p.services, services));
      IdInRange(S(), nId, {}, 0);
      NonNegative(S(), nId, {}, 0);
      Touch(S(), nId, p, {}, 0);
      mapInfo := mapInfo[nId := p];
      more := IsWanted(p, time, rnd);
    }

    method Attempt(addr: Service, countFailure: bool, nTime: int)
      requires Valid() && nTime >= 0
      modifies `mapInfo
      ensures Valid() && Step(old(S()), S())
      ensures old(Known(addr)).None? ==> mapInfo == old(mapInfo)
      ensures old(Known(addr)).Some? ==>
          var id := old(Known(addr)).value;
          var counts := countFailure && old(mapInfo)[id].lastCountAttempt < nLastGood;
          mapInfo == old(mapInfo)[id := old(mapInfo)[id].(
            lastTry := nTime,
            lastCountAttempt := if counts then nTime else old(mapInfo)[id].lastCountAttempt,
            attempts := old(mapInfo)[id].attempts + if counts then 1 else 0)]
    {
      hide Between, CollisionsOk, Step, Keeps;
      Unmoved(S(), S(), -1, triedCollisions);
      var known := Known(addr);
      if known.None? {
        return;
      }
      var p := mapInfo[known.value];
      p := p.(lastTry := nTime);
      if countFailure && p.lastCountAttempt < nLastGood {
        p := p.(lastCountAttempt := nTime);
        p := p.(attempts := p.attempts + 1);
      }
      Statistics(S(), known.value, p);
      mapInfo := mapInfo[known.value := p];
      Unmoved(old(S()), S(), -1, triedCollisions);
    }

    method Connected(addr: Service, nTime: int)
      requires Valid()
      modifies `mapInfo
      ensures Valid() && Step(old(S()), S())
      ensures old(Known(addr)).None? ==> mapInfo == old(mapInfo)
      ensures old(Known(addr)).Some? ==>
          var id := old(Known(addr)).value;
          var p := old(mapInfo)[id];
          mapInfo == old(mapInfo)[id := p.(time := if nTime - p.time > 20 * 60 then nTime else p.time)]
    {
      hide Between, CollisionsOk, Step, Keeps;
      Unmoved(S(), S(), -1, triedCollisions);
      var known := Known(addr);
      if known.None? {
        return;
      }
      var p := mapInfo[known.value];
      if nTime - p.time > 20 * 60 {
        p := p.(time := nTime);
      }
      NonNegative(S(), known.value, {}, 0);
      Statistics(S(), known.value, p);
      mapInfo := mapInfo[known.value := p];
      Unmoved(old(S()), S(), -1, triedCollisions);
    }

    /** A random selection of good entries, none twice, at most 23 percent of all and at most 2500; only the random
        order changes. */
    method GetAddr(draw: nat -> nat, now: int) returns (v: seq<AddrInfo>)
      requires Valid()
      modifies `mapInfo, `vRandom
      ensures Valid() && Step(old(S()), S()) && SameRefs(old(mapInfo), mapInfo)
      ensures |v| <= ADDRMAN_GETADDR_MAX && 100 * |v| <= ADDRMAN_GETADDR_MAX_PCT * |vRandom|
      ensures forall a :: a in v ==> !IsTerrible(a, now) && a.addr.ip in mapAddr
      ensures forall i, j :: 0 <= i < j < |v| ==> v[i].addr.ip != v[j].addr.ip
      ensures |v| == ADDRMAN_GETADDR_MAX || |v| == ADDRMAN_GETADDR_MAX_PCT * |vRandom| / 100 ||
              forall id :: id in mapInfo && !IsTerrible(mapInfo[id], now) ==> exists i :: 0 <= i < |v| && v[i].addr == mapInfo[id].addr
    {
      hide Between, CollisionsOk, IsTerrible, Sampled, SameRefs, Step;
      var nNodes := ADDRMAN_GETADDR_MAX_PCT * |vRandom| / 100;
      if nNodes > ADDRMAN_GETADDR_MAX {
        nNodes := ADDRMAN_GETADDR_MAX;
      }
      v := [];
      ghost var size, ids := |vRandom|, [];
      SampleNothing(S(), now);
      var n := 0;
      while n < |vRandom| && |v| < nNodes
        invariant n <= |vRandom| == size && |v| <= nNodes
        invariant Between(S(), {}, 0) && SameRefs(old(mapInfo), mapInfo)
        invariant Sampled(S(), ids, v, n, now)
      {
        var pos := draw(n) % (|vRandom| - n) + n;
        ghost var s := S();
        InOrder(s, n);
        InOrder(s, pos);
        SwapRandom(n, pos, {}, 0);
        InOrder(S(), n);
        SampleMore(old(mapInfo), s, S(), ids, v, n, pos, now);
        var ai := mapInfo[vRandom[n]];
        if !IsTerrible(ai, now) {
          ids := ids + [vRandom[n]];
          v := v + [ai];
        }
        n := n + 1;
      }
      SampleDone(S(), ids, v, n, now);
      OrderOnly(old(S()), S(), triedCollisions);
    }

    // ----- Collisions in the tried table -----

    /** Settles the waiting entries one after the other: each is discarded, moved in over a stale entry, or left
        waiting.  `ids` are the numbers in the order taken and `states` the states passed through. */
    method ResolveCollisions(now: int, rnd: nat) returns (ghost ids: seq<int>, ghost states: seq<State>)
      requires Valid() && now >= 0
      modifies this
      ensures Valid() && Step(old(S()), S())
      ensures Distinct(ids) && forall id :: id in ids <==> id in old(triedCollisions)
      ensures |states| == |ids| + 1 && states[0] == old(S()) && states[|ids|] == S()
      ensures forall i :: 0 <= i < |ids| ==> Settled(states[i], states[i + 1], valid, ids[i], now)
      ensures forall i :: 0 <= i < |ids| ==> (ids[i] in triedCollisions <==> Judged(states[i], valid, ids[i], now) == Wait)
      ensures triedCollisions <= old(triedCollisions)
    {
      hide Between, CollisionsOk, Judged, Settled;
      var todo := triedCollisions;
      ids, states := [], [S()];
      AllNumbered(S());
      while todo != {}
        invariant Valid() && Step(old(S()), S())
        invariant todo <= triedCollisions <= old(triedCollisions)
        invariant Distinct(ids) && forall id :: id in ids <==> id in old(triedCollisions) && id !in todo
        invariant |states| == |ids| + 1 && states[0] == old(S()) && states[|ids|] == S()
        invariant forall i :: 0 <= i < |ids| ==> Settled(states[i], states[i + 1], valid, ids[i], now)
        invariant forall i :: 0 <= i < |ids| ==> (ids[i] in triedCollisions <==> Judged(states[i], valid, ids[i], now) == Wait)
        decreases |todo|
      {
        SomeNumber(todo);
        var id :| id in todo;
        todo := todo - {id};
        ghost var s := S();
        var erase := ResolveOne(id, now, rnd);
        StepTransitive(old(S()), s, S());
        if erase {
          FewerCollisions(S(), triedCollisions, id);
          triedCollisions := triedCollisions - {id};
        }
        ids, states := ids + [id], states + [S()];
      }
    }

    /** One waiting entry.  Its tried slot is always filled, so the branch for a slot that became free is dead. */
    method ResolveOne(id: int, now: int, rnd: nat) returns (erase: bool)
      requires Valid() && now >= 0 && id in triedCollisions
      modifies this
      ensures Valid() && Step(old(S()), S()) && triedCollisions == old(triedCollisions)
      ensures erase <==> Judged(old(S()), valid, id, now) != Wait
      ensures Settled(old(S()), S(), valid, id, now)
    {
      if id !in mapInfo {
        return true;
      }
      var a := mapInfo[id].addr;
      var slot := TriedSlot(h, nKey, a);
      if !valid(a) {
        return true;
      }
      if slot in vvTried {
        var old_ := mapInfo[vvTried[slot]];
        if now - old_.lastSuccess < ADDRMAN_REPLACEMENT_HOURS * (60 * 60) {
          return true;
        }
        if now - old_.lastTry < ADDRMAN_REPLACEMENT_HOURS * (60 * 60) && now - old_.lastTry > 60 {
          OwnSeat(S(), id);
          assert Known(a) == Some(id);
          hide Between;
          ghost var lost := Good(a, false, now, rnd);
          return true;
        }
        return false;
      }
      assert false;
      return true;
    }

    /** The entry that stands where the waiting entry `pick` would go.  Reading a slot that is empty makes up an entry
        with number -1, which breaks the tables; a valid manager never does. */
    method SelectTriedCollision(pick: int) returns (r: Option<AddrInfo>)
      requires Consistent(S()) && (triedCollisions != {} ==> pick in triedCollisions)
      modifies `triedCollisions, `mapInfo
      ensures old(Valid()) ==> Valid() && mapInfo == old(mapInfo)
      ensures Consistent(S()) <==> old(triedCollisions) == {} || SafeToRead(old(S()), pick)
      ensures old(triedCollisions) == {} ==> r == None && mapInfo == old(mapInfo) && triedCollisions == {}
      ensures old(triedCollisions) != {} && pick !in old(mapInfo) ==>
          r == None && mapInfo == old(mapInfo) && triedCollisions == old(triedCollisions) - {pick}
      ensures old(triedCollisions) != {} && pick in old(mapInfo) ==>
          && triedCollisions == old(triedCollisions) && r.Some?
          && if SafeToRead(old(S()), pick) then mapInfo == old(mapInfo) && r.value.inTried && Occupant(S(), pick, r.value)
             else r.value == BLANK && mapInfo == old(mapInfo)[-1 := BLANK]
    {
      if triedCollisions == {} {
        return None;
      }
      if pick !in mapInfo {
        ghost var was := triedCollisions;
        triedCollisions := triedCollisions - {pick};
        assert CollisionsOk(S(), was) ==> CollisionsOk(S(), triedCollisions);
        return None;
      }
      var slot := TriedSlot(h, nKey, mapInfo[pick].addr);
      if slot in vvTried {
        r := Some(mapInfo[vvTried[slot]]);
      } else {
        MadeUp(S());
        hide Between;
        mapInfo := mapInfo[-1 := BLANK];
        r := Some(BLANK);
      }
    }

    // ----- Starting over -----

    /** Forgets the statistics.  The clause on the last success, which the other operations are not asked about,
        fails afterwards exactly if there is a tried entry. */
    method ResetCounters()
      requires Valid()
      modifies `mapInfo
      ensures Valid() && Step(old(S()), S()) && SameRefs(old(mapInfo), mapInfo) && SameOrder(old(mapInfo), mapInfo)
      ensures forall id :: id in mapInfo ==>
        mapInfo[id] == old(mapInfo)[id].(lastSuccess := 0, lastTry := 0, lastCountAttempt := 0, attempts := 0)
      ensures (forall id :: id in mapInfo && mapInfo[id].inTried ==> mapInfo[id].lastSuccess != 0) <==> nTried == 0
    {
      hide Between, CollisionsOk;
      ghost var s := S();
      mapInfo := map id | id in mapInfo ::
        mapInfo[id].(lastSuccess := 0, lastTry := 0, lastCountAttempt := 0, attempts := 0);
      ResetKeeps(s, mapInfo);
      NoTried(S());
      CollisionsKept(s, S(), triedCollisions);
    }

    constructor (h: Hashes, valid: Service -> bool, routable: Service -> bool, key: nat)
      requires key != 0
      ensures Valid() && this.h == h && this.valid == valid && this.routable == routable
      ensures mapInfo == map[] && triedCollisions == {} && nKey == key
    {
      this.h, this.valid, this.routable := h, valid, routable;
      triedCollisions := {};
      new;
      Clear(key);
    }

    /** Empties the tables.  The set of waiting numbers is not cleared: it stays sound exactly if it was empty. */
    method Clear(key: nat)
      requires key != 0
      modifies this
      ensures Consistent(S()) && nKey == key && mapInfo == map[] && vvTried == map[] && nIdCount == 0
      ensures triedCollisions == old(triedCollisions)
      ensures Valid() <==> old(triedCollisions) == {}
    {
      hide Between;
      vRandom := [];
      mapInfo := map[];
      mapAddr := map[];
      nKey := key;
      vvNew := map[];
      vvTried := map[];
      nIdCount, nTried, nNew, nLastGood := 0, 0, 0, 1;
      NothingKnown(h, key);
      SomeNumber(triedCollisions);
    }
  }

  // ----- What the operations promise -----

  /** The new table without an entry, and with an entry in the slot that its own source selects. */
  ghost function Without(news: Table, id: int): (r: Table) {
    map slot | slot in news && news[slot] != id :: news[slot]
  }

  ghost function Returned(s: State, news: Table, id: int): (r: Table) {
    if id in s.info then news[SlotFrom(s.h, s.key, s.info[id].addr, s.info[id].source) := id] else news
  }

  function SlotFrom(h: Hashes, key: nat, a: Service, source: nat): (slot: Slot) {
    NewSlot(h, key, a, NewBucket(h, key, a, source))
  }

  /** An entry with `refs` references may have the slot if it is free or its own, or if it stands to lose more than the
      present holder does. */
  predicate MayTake(s: State, slot: Slot, id: int, refs: int, now: int) {
    slot in s.news && s.news[slot] != id && s.news[slot] in s.info ==>
      var existing := s.info[s.news[slot]];
      IsTerrible(existing, now) || (existing.refCount > 1 && refs == 0)
  }

  function NoLess(time: int): (t: int) {
    if time < 0 then 0 else time
  }

  function Newcomer(addr: Service, time: int, services: bv64, source: nat, penalty: int): (a: AddrInfo) {
    AddrInfo(addr, NoLess(time - penalty), services, source, 0, 0, 0, 0, 0, false, -1)
  }

  function Joined(a: bv64, b: bv64): (r: bv64) {
    a | b
  }

  function Refreshed(p: AddrInfo, time: int, services: bv64, penalty: int, now: int): (a: AddrInfo) {
    var interval := if now - time < 24 * 60 * 60 then 60 * 60 else 24 * 60 * 60;
    var outdated := time != 0 && (p.time == 0 || p.time < time - interval - penalty);
    p.(time := if outdated then NoLess(time - penalty) else p.time, services := Joined(p.services, services))
  }

  /** The entry for an address: the known one refreshed, or a new one. */
  function Met(s: State, addr: Service, time: int, services: bv64, source: nat, penalty: int, now: int): (a: AddrInfo) {
    if addr.ip in s.byAddr && s.byAddr[addr.ip] in s.info
    then Refreshed(s.info[s.byAddr[addr.ip]], time, services, penalty, now)
    else Newcomer(addr, time, services, source, penalty)
  }

  /** A known entry gets one more new slot only for newer information, and every reference it has halves the odds. */
  predicate Wanted(p: AddrInfo, time: int, rnd: nat) {
    && time != 0 && (p.time == 0 || time > p.time) && !p.inTried && p.refCount != NEW_BUCKETS_PER_ADDRESS
    && (p.refCount >= 0 ==> rnd % Arith.Pow2(p.refCount) == 0)
  }

  method IsWanted(p: AddrInfo, time: int, rnd: nat) returns (more: bool)
    requires p.refCount >= 0
    ensures more <==> Wanted(p, time, rnd)
  {
    if time == 0 || (p.time != 0 && time <= p.time) || p.inTried || p.refCount == NEW_BUCKETS_PER_ADDRESS {
      return false;
    }
    var factor, n := 1, 0;
    while n < p.refCount
      invariant 0 <= n <= p.refCount && factor == Arith.Pow2(n)
    {
      factor := factor * 2;
      n := n + 1;
    }
    return !(factor > 1 && rnd % factor != 0);
  }

  function Succeeded(p: AddrInfo, nTime: int): (a: AddrInfo) {
    p.(lastSuccess := nTime, lastTry := nTime, attempts := 0)
  }

  /** What becomes of a waiting entry: the holder of its slot has connected lately, has failed lately, or neither. */
  datatype Judgement = Discard | Replace | Wait

  predicate Recent(now: int, then_: int) {
    now - then_ < ADDRMAN_REPLACEMENT_HOURS * (60 * 60)
  }

  ghost function Judged(s: State, valid: Service -> bool, id: int, now: int): (j: Judgement) {
    if id !in s.info || !valid(s.info[id].addr) then Discard
    else
      var slot := TriedSlot(s.h, s.key, s.info[id].addr);
      if slot !in s.tried || s.tried[slot] !in s.info then Replace
      else
        var holder := s.info[s.tried[slot]];
        if Recent(now, holder.lastSuccess) then Discard
        else if Recent(now, holder.lastTry) && now - holder.lastTry > 60 then Replace
        else Wait
  }

  /** From `s` to `r` the entry has taken its slot, and the holder is back in the new table, if it was to be replaced;
      otherwise nothing changed. */
  ghost predicate Settled(s: State, r: State, valid: Service -> bool, id: int, now: int) {
    if Judged(s, valid, id, now) != Replace then r == s
    else
      var slot := TriedSlot(s.h, s.key, s.info[id].addr);
      && id in r.info && r.info[id].inTried && r.info[id].lastSuccess == now
      && r.tried == s.tried[slot := id]
      && (slot in s.tried && s.tried[slot] != id ==> s.tried[slot] in r.info && !r.info[s.tried[slot]].inTried)
  }

  /** A freshly made entry: no address, and in none of the tables. */
  const BLANK: AddrInfo := AddrInfo(Service(0, 0), 100000000, 1, 0, 0, 0, 0, 0, 0, false, -1)

  /** The number is not known, or the tried slot of its entry is filled. */
  ghost predicate SafeToRead(s: State, id: int) {
    id in s.info ==> TriedSlot(s.h, s.key, s.info[id].addr) in s.tried
  }

  /** No address can lead to the made-up entry. */
  lemma MadeUp(s: State)
    requires Consistent(s)
    ensures !Consistent(s.(info := s.info[-1 := BLANK]))
  {
    var r := s.(info := s.info[-1 := BLANK]);
    hide Between;
    if Consistent(r) {
      OwnSeat(r, -1);
      KnownByAddr(s);
      IdInRange(s, -1, {}, 0);
      assert false;
    }
  }

  /** What a cleared set of tables and an uncleared waiting set lead to: a number waits from before, the next address
      gets that number, and looking for its rival reads an empty slot. */
  method StaleNumber(m: AddrMan, addr: Service, time: int, services: bv64, source: nat, key: nat, now: int, rnd: nat)
    requires m.routable(addr) && m.triedCollisions == {0} && key != 0
    modifies m
    ensures 0 in m.mapInfo && m.mapInfo[-1 := BLANK] == m.mapInfo && !Consistent(m.S())
    ensures TriedSlot(m.h, m.nKey, m.mapInfo[0].addr) !in m.vvTried
  {
    m.Clear(key);
    var isNew := m.Add(addr, time, services, source, 0, now, rnd);
    assert 0 in m.mapInfo && m.vvTried == map[];
    assert !SafeToRead(m.S(), 0);
    var r := m.SelectTriedCollision(0);
    assert r.value == BLANK;
  }

  /** The entry `a` fills the tried slot that entry `id` would go to. */
  ghost predicate Occupant(s: State, id: int, a: AddrInfo)
    requires id in s.info
  {
    var slot := TriedSlot(s.h, s.key, s.info[id].addr);
    slot in s.tried && s.tried[slot] in s.info && s.info[s.tried[slot]] == a
  }

  lemma NothingKnown(h: Hashes, key: nat)
    ensures Consistent(State(h, key, map[], map[], [], map[], map[], 0, 0, 0))
  {
    assert TriedIds(map[]) == {} && NewIds(map[]) == {};
  }

  lemma ResetKeeps(s: State, b: Infos)
    requires Consistent(s) && b.Keys == s.info.Keys
    requires forall id :: id in b ==>
      b[id] == s.info[id].(lastSuccess := 0, lastTry := 0, lastCountAttempt := 0, attempts := 0)
    ensures Consistent(s.(info := b))
  {
    KeepAll(s, b, {}, 0);
  }

  lemma NoTried(s: State)
    requires Consistent(s)
    ensures (exists id :: id in s.info && s.info[id].inTried) <==> s.nTried != 0
  {
    if id :| id in s.info && s.info[id].inTried { assert id in TriedIds(s.info); }
    if s.nTried != 0 {
      SomeNumber(TriedIds(s.info));
      var id :| id in TriedIds(s.info);
    }
  }

  lemma AllNumbered(s: State)
    requires Consistent(s)
    ensures forall id :: id in s.info ==> id < s.nIdCount
  {
  }

  lemma FewerCollisions(s: State, collisions: set<int>, id: int)
    requires CollisionsOk(s, collisions)
    ensures CollisionsOk(s, collisions - {id})
  {
  }

  /** The entries `v` are the good ones before position `n` of the random order, with their distinct numbers `ids`. */
  ghost predicate Sampled(s: State, ids: seq<int>, v: seq<AddrInfo>, n: nat, now: int) {
    && |ids| == |v| && Distinct(ids)
    && (forall i :: 0 <= i < |ids| ==> ids[i] in s.info && s.info[ids[i]].addr == v[i].addr && s.info[ids[i]].randomPos < n)
    && (forall a :: a in v ==> !IsTerrible(a, now))
    && forall id :: id in s.info && 0 <= s.info[id].randomPos < n && !IsTerrible(s.info[id], now) ==> id in ids
  }

  lemma SampleNothing(s: State, now: int)
    ensures Sampled(s, [], [], 0, now) && SameRefs(s.info, s.info)
  {
  }

  lemma InOrder(s: State, i: nat)
    requires Consistent(s) && i < |s.random|
    ensures s.random[i] in s.info && s.info[s.random[i]].randomPos == i
  {
  }

  lemma SampleMore(info: Infos, s: State, r: State, ids: seq<int>, v: seq<AddrInfo>, n: nat, pos: nat, now: int)
    requires Sampled(s, ids, v, n, now) && n <= pos < |s.random| && n < |r.random| && SameRefs(info, s.info)
    requires s.random[n] in s.info && s.info[s.random[n]].randomPos == n
    requires s.random[pos] in s.info && s.info[s.random[pos]].randomPos == pos
    requires r == (if n == pos then s else Swapped(s, n, pos)) && Consistent(r)
    ensures SameRefs(info, r.info) && r.random[n] in r.info
    ensures var id := r.random[n];
            if IsTerrible(r.info[id], now) then Sampled(r, ids, v, n + 1, now)
            else Sampled(r, ids + [id], v + [r.info[id]], n + 1, now)
  {
    hide IsTerrible, Between;
    InOrder(r, n);
    SwapSample(s, r, ids, v, n, pos, now);
    NextSample(r, ids, v, n, now);
  }

  lemma SwapSample(s: State, r: State, ids: seq<int>, v: seq<AddrInfo>, n: nat, pos: nat, now: int)
    requires Sampled(s, ids, v, n, now) && n <= pos < |s.random|
    requires s.random[n] in s.info && s.info[s.random[n]].randomPos == n
    requires s.random[pos] in s.info && s.info[s.random[pos]].randomPos == pos
    requires r == if n == pos then s else Swapped(s, n, pos)
    ensures Sampled(r, ids, v, n, now)
  {
  }

  lemma NextSample(s: State, ids: seq<int>, v: seq<AddrInfo>, n: nat, now: int)
    requires Sampled(s, ids, v, n, now) && n < |s.random| && Consistent(s) && s.random[n] in s.info
    ensures var id := s.random[n];
            if IsTerrible(s.info[id], now) then Sampled(s, ids, v, n + 1, now)
            else Sampled(s, ids + [id], v + [s.info[id]], n + 1, now)
  {
    hide IsTerrible;
    InOrder(s, n);
    forall id | id in s.info && s.info[id].randomPos == n ensures id == s.random[n] { HasPosition(s, id, {}, 0); }
  }

  lemma SampleDone(s: State, ids: seq<int>, v: seq<AddrInfo>, n: nat, now: int)
    requires Consistent(s) && Sampled(s, ids, v, n, now)
    ensures forall a :: a in v ==> !IsTerrible(a, now) && a.addr.ip in s.byAddr
    ensures forall i, j :: 0 <= i < j < |v| ==> v[i].addr.ip != v[j].addr.ip
    ensures n == |s.random| ==> forall id :: id in s.info && !IsTerrible(s.info[id], now) ==>
              exists i :: 0 <= i < |v| && v[i].addr == s.info[id].addr
  {
    hide IsTerrible;
    forall i | 0 <= i < |v| ensures v[i].addr.ip in s.byAddr && s.byAddr[v[i].addr.ip] == ids[i] {
      OwnSeat(s, ids[i]);
    }
    if n == |s.random| {
      forall id | id in s.info && !IsTerrible(s.info[id], now)
        ensures exists i :: 0 <= i < |v| && v[i].addr == s.info[id].addr
      {
        HasPosition(s, id, {}, 0);
        assert id in ids;
      }
    }
  }

  lemma OrderOnly(s: State, r: State, collisions: set<int>)
    requires r == s.(info := r.info, random := r.random) && SameRefs(s.info, r.info) && CollisionsOk(s, collisions)
    ensures Step(s, r) && CollisionsOk(r, collisions)
  {
  }

  lemma NobodyWaits(s: State)
    ensures CollisionsOk(s, {})
  {
  }

  lemma Unmoved(s: State, r: State, id: int, collisions: set<int>)
    requires r == s.(info := r.info) && r.info.Keys == s.info.Keys && CollisionsOk(s, collisions)
    requires forall x :: x in s.info ==> r.info[x].addr == s.info[x].addr
    ensures Step(s, r) && CollisionsOk(r, collisions) && Keeps(r.info, r.info, id) && Keeps(r.info, r.info, -1)
  {
  }

  lemma MoreCollisions(s: State, collisions: set<int>, id: int)
    requires Consistent(s) && CollisionsOk(s, collisions) && id in s.info
    requires TriedSlot(s.h, s.key, s.info[id].addr) in s.tried
    ensures CollisionsOk(s, collisions + {id})
  {
  }

  lemma Moved(s: State, r: State, lost: int)
    requires Keeps(s.info, r.info, lost)
    requires r.h == s.h && r.key == s.key && r.nIdCount == s.nIdCount && s.tried.Keys <= r.tried.Keys
    ensures Step(s, r)
  {
  }

  lemma RefreshedSame(p: AddrInfo, time: int, services: bv64, penalty: int, now: int)
    ensures var r := Refreshed(p, time, services, penalty, now);
            r.addr == p.addr && r.refCount == p.refCount && r.inTried == p.inTried
  {
  }

  lemma WantedIs(p: AddrInfo, time: int, rnd: nat)
    requires Wanted(p, time, rnd)
    ensures !p.inTried && p.refCount != NEW_BUCKETS_PER_ADDRESS
  {
  }

  lemma NewcomerIs(addr: Service, time: int, services: bv64, source: nat, penalty: int)
    ensures var a := Newcomer(addr, time, services, source, penalty); a.addr == addr && a.refCount == 0 && !a.inTried
  {
  }

  /** After the entry `id` was refreshed or created (from `s` to `t`) and given a slot or not (from `t` to `r`). */
  lemma Placed(s: State, t: State, r: State, id: int, p: AddrInfo, slot: Slot, x: int, now: int, collisions: set<int>)
    requires CollisionsOk(s, collisions) && t.h == s.h && t.key == s.key && t.news == s.news && t.tried == s.tried
    requires id in t.info && t.info == s.info[id := t.info[id]]
    requires if id in s.info then t.info[id].addr == s.info[id].addr && t.nIdCount == s.nIdCount
             else id == s.nIdCount && t.nIdCount == s.nIdCount + 1
    requires r.h == t.h && r.key == t.key && r.nIdCount == t.nIdCount && r.tried == t.tried
    requires t.info[id] == p.(randomPos := t.info[id].randomPos) && Keeps(t.info, r.info, x)
    ensures Step(s, r) && CollisionsOk(r, collisions) && Keeps(s.info[id := p], r.info, x)
    ensures MayTake(t, slot, id, p.refCount, now) == MayTake(s, slot, id, p.refCount, now)
  {
  }

  /** An entry in the tried table is the one in its own slot, and the address finds the entry. */
  lemma OwnSeat(s: State, id: int)
    requires Consistent(s) && id in s.info
    ensures s.info[id].addr.ip in s.byAddr && s.byAddr[s.info[id].addr.ip] == id
    ensures var slot := TriedSlot(s.h, s.key, s.info[id].addr);
            s.info[id].inTried ==> slot in s.tried && s.tried[slot] == id
  {
  }

  /** All entries but `x` are still there, and they only moved between tables and in the random order. */
  ghost predicate Keeps(before: Infos, after: Infos, x: int) {
    && before.Keys - {x} <= after.Keys <= before.Keys
    && forall id :: id in after ==>
        after[id] == before[id].(randomPos := after[id].randomPos, refCount := after[id].refCount, inTried := after[id].inTried)
  }

  lemma KeepsOne(before: Infos, after: Infos, id: int, x: int)
    requires id in before && id in after && after == before[id := after[id]]
    requires after[id] == before[id].(randomPos := after[id].randomPos, refCount := after[id].refCount, inTried := after[id].inTried)
    ensures Keeps(before, after, x) && after.Keys == before.Keys
  {
  }

  lemma KeepsAddr(before: Infos, after: Infos, x: int, id: int)
    requires Keeps(before, after, x) && id in after
    ensures id in before && after[id].addr == before[id].addr
  {
  }

  /** Nothing forgotten, or one entry that has lost a slot. */
  lemma LosesKeeps(before: Infos, after: Infos, x: int)
    requires before == after || Loses(before, after, x)
    ensures Keeps(before, after, x)
  {
  }

  lemma SameReturn(s: State, t: State, news: Table, id: int)
    requires s.h == t.h && s.key == t.key && id in s.info && id in t.info
    requires s.info[id].addr == t.info[id].addr && s.info[id].source == t.info[id].source
    ensures Returned(s, news, id) == Returned(t, news, id)
  {
  }

  lemma KeepsAfter(a: Infos, b: Infos, c: Infos, x: int, y: int)
    requires Keeps(a, b, x) && Keeps(b, c, y) && b.Keys == c.Keys
    ensures Keeps(a, c, x)
  {
  }

  lemma KeepsThen(a: Infos, b: Infos, c: Infos, x: int, y: int)
    requires Keeps(a, b, x) && a.Keys == b.Keys && Keeps(b, c, y)
    ensures Keeps(a, c, y)
  {
  }

  function Turned(n: nat, rnd: nat): (b: nat) {
    (n + rnd) % NEW_BUCKET_COUNT
  }

  ghost predicate Holds(news: Table, slot: Slot, id: int) {
    slot in news && news[slot] == id
  }

  lemma NoSlotLeft(s: State, id: int)
    requires Between(s, {id}, 0) && id in s.info
    requires forall b :: 0 <= b < NEW_BUCKET_COUNT ==> !Holds(s.news, NewSlot(s.h, s.key, s.info[id].addr, b), id)
    ensures s.info[id].refCount == 0 && forall slot :: slot in s.news ==> s.news[slot] != id
  {
    forall slot: Slot ensures slot !in Refs(s.news, id) {
      var held := Holds(s.news, NewSlot(s.h, s.key, s.info[id].addr, slot.bucket), id);
    }
    assert Refs(s.news, id) == {};
  }

  /** An entry outside the tried table is always found in some new bucket. */
  lemma SomeBucketHolds(s: State, id: int, rnd: nat)
    requires Between(s, {}, 0) && id in s.info && !s.info[id].inTried
    ensures exists m :: 0 <= m < NEW_BUCKET_COUNT && Holds(s.news, NewSlot(s.h, s.key, s.info[id].addr, Turned(m, rnd)), id)
  {
    assert Refs(s.news, id) != {};
    var slot :| slot in Refs(s.news, id);
    var m := (slot.bucket - rnd) % NEW_BUCKET_COUNT;
    assert Turned(m, rnd) == slot.bucket;
    assert Holds(s.news, NewSlot(s.h, s.key, s.info[id].addr, Turned(m, rnd)), id);
  }

  lemma Statistics(s: State, id: int, a: AddrInfo)
    requires Consistent(s) && id in s.info && SameRole(a, s.info[id])
    requires a.lastTry >= 0 && a.lastSuccess == s.info[id].lastSuccess
    ensures Consistent(s.(info := s.info[id := a]))
  {
    Touch(s, id, a, {}, 0);
  }

  lemma FreeNumber(s: State)
    requires Consistent(s)
    ensures s.nIdCount !in s.info
  {
  }

  lemma KnownByAddr(s: State)
    requires Consistent(s)
    ensures forall ip :: ip in s.byAddr ==> s.byAddr[ip] in s.info
  {
  }

  lemma NonNegative(s: State, id: int, limbo: set<int>, uncounted: int)
    requires Between(s, limbo, uncounted) && id in s.info
    ensures s.info[id].refCount >= 0 && s.info[id].lastTry >= 0 && s.info[id].lastSuccess >= 0
  {
  }
}

/** Block index entries with skip pointers, and the active chain. */
module BlockChain {

  // ----- Skip heights -----

  /** Bitwise AND. */
  function And(a: nat, b: nat): (r: nat)
    ensures r <= a && r <= b
  {
    if a == 0 || b == 0 then 0 else 2 * And(a / 2, b / 2) + (a % 2) * (b % 2)
  }

  /** Clears the lowest set bit (`n & (n - 1)`). */
  function InvertLowestOne(n: nat): (r: nat)
    ensures n > 0 ==> r < n
  {
    if n == 0 then 0 else And(n, n - 1)
  }

  function GetSkipHeight(height: nat): (r: nat)
    ensures height > 0 ==> r < height
    ensures height == 0 ==> r == 0
  {
    if height < 2 then 0
    else if height % 2 == 1 then InvertLowestOne(InvertLowestOne(height - 1)) + 1
    else InvertLowestOne(height)
  }

  // ----- Block index entries -----

  class BlockIndex {
    const pprev: BlockIndex?
    const nHeight: nat
    var pskip: BlockIndex?

    ghost const path: seq<BlockIndex>   // from the genesis block to this one

    /** The tree shape: `path` is the walk along `pprev`. */
    ghost predicate Linked() {
      && |path| == nHeight + 1 && path[nHeight] == this
      && path[0].pprev == null
      && (forall i :: 0 <= i <= nHeight ==> path[i].nHeight == i && path[i].path == path[..i + 1])
      && (forall i :: 0 < i <= nHeight ==> path[i].pprev == path[i - 1])
    }

    /** Every skip pointer on the way down points where it should. */
    ghost predicate Valid()
      reads path
    {
      && Linked()
      && forall i :: 0 <= i <= nHeight ==>
           path[i].pskip == null || path[i].pskip == path[GetSkipHeight(i)]
    }

    constructor Genesis()
      ensures Valid() && pprev == null && nHeight == 0 && path == [this] && pskip == null
    {
      pprev := null;
      nHeight := 0;
      pskip := null;
      path := [this];
    }

    constructor (prev: BlockIndex)
      requires prev.Valid()
      ensures Valid() && pprev == prev && path == prev.path + [this] && pskip == null
    {
      pprev := prev;
      nHeight := prev.nHeight + 1;
      pskip := null;
      path := prev.path + [this];
    }

    /** The ancestor at a height, found with skip pointers. */
    method GetAncestor(height: int) returns (r: BlockIndex?)
      requires Valid()
      ensures r == if 0 <= height <= nHeight then path[height] else null
    {
      if height > nHeight || height < 0 {
        return null;
      }
      var walk, at := this, nHeight;
      while at > height
        invariant height <= at <= nHeight && walk == path[at]
      {
        var skip := GetSkipHeight(at);
        var skipPrev := GetSkipHeight(at - 1);
        if walk.pskip != null &&
           (skip == height || (skip > height && !(skipPrev < skip - 2 && skipPrev >= height)))
        {
          walk := walk.pskip;
          at := skip;
        } else {
          walk := walk.pprev;
          at := at - 1;
        }
      }
      return walk;
    }

    method BuildSkip()
      requires Valid()
      modifies this
      ensures Valid()
      ensures forall d: BlockIndex :: old(allocated(d)) && old(d.Valid()) ==> d.Valid()
      ensures pskip == if pprev == null then old(pskip) else path[GetSkipHeight(nHeight)]
    {
      if pprev != null {
        AncestorsAreValid(this, nHeight - 1);
        var s := pprev.GetAncestor(GetSkipHeight(nHeight));
        pskip := s;
        forall d: BlockIndex | old(allocated(d)) && old(d.Valid()) ensures d.Valid() {
          OnPath(d, this);
          if this in d.path { assert d.path[..nHeight + 1] == path; }
        }
      }
    }
  }

  /** A block's ancestors are well-formed entries, with the lower part of the same path. */
  lemma AncestorsAreValid(b: BlockIndex, h: nat)
    requires b.Valid() && h <= b.nHeight
    ensures b.path[h].Valid() && b.path[h].path == b.path[..h + 1] && b.path[h].nHeight == h
  {
    var a := b.path[h];
    assert a.path == b.path[..h + 1];
    forall i | 0 <= i <= h ensures a.path[i].nHeight == i && a.path[i].path == a.path[..i + 1] {
      assert a.path[i] == b.path[i];
      assert a.path[..i + 1] == b.path[..i + 1];
    }
  }

  /** A block is on a path exactly when the path has it at its own height. */
  lemma OnPath(b: BlockIndex, c: BlockIndex)
    requires b.Linked()
    ensures c in b.path <==> c.nHeight <= b.nHeight && b.path[c.nHeight] == c
  {
    if c in b.path {
      var i :| 0 <= i < |b.path| && b.path[i] == c;
    }
  }

  // ----- Branches -----

  /** Blocks on both branches. */
  ghost predicate Common(a: BlockIndex, b: BlockIndex, c: BlockIndex) {
    c in a.path && c in b.path
  }

  lemma CommonAt(a: BlockIndex, b: BlockIndex, c: BlockIndex)
    requires a.Linked() && b.Linked()
    ensures Common(a, b, c) <==>
            c.nHeight <= a.nHeight && c.nHeight <= b.nHeight && a.path[c.nHeight] == c == b.path[c.nHeight]
  {
    OnPath(a, c);
    OnPath(b, c);
  }

  /** The highest block on both branches, or null when they have nothing in common. */
  method LastCommonAncestor(a: BlockIndex, b: BlockIndex) returns (r: BlockIndex?)
    requires a.Valid() && b.Valid()
    ensures r == null <==> forall c :: !Common(a, b, c)
    ensures r != null ==> Common(a, b, r) && forall c :: Common(a, b, c) ==> c.nHeight <= r.nHeight
  {
    var pa: BlockIndex?, pb: BlockIndex? := a, b;
    if a.nHeight > b.nHeight {
      pa := a.GetAncestor(b.nHeight);
    } else if b.nHeight > a.nHeight {
      pb := b.GetAncestor(a.nHeight);
    }
    ghost var top := if a.nHeight < b.nHeight then a.nHeight else b.nHeight;
    ghost var h := top;   // -1 when both walks have left the genesis block
    while pa != pb && pa != null && pb != null
      invariant -1 <= h <= top
      invariant h == -1 ==> pa == null && pb == null
      invariant h >= 0 ==> pa == a.path[h] && pb == b.path[h]
      invariant forall k :: h < k <= top ==> a.path[k] != b.path[k]
      decreases h
    {
      pa := pa.pprev;
      pb := pb.pprev;
      h := h - 1;
    }
    forall c ensures Common(a, b, c) <==> c.nHeight <= top && a.path[c.nHeight] == c == b.path[c.nHeight] {
      CommonAt(a, b, c);
    }
    return pa;
  }

  /** Both blocks share everything below a shared block. */
  lemma SharedBelow(a: BlockIndex, b: BlockIndex, c: BlockIndex, h: nat)
    requires a.Linked() && b.Linked() && Common(a, b, c) && h <= c.nHeight
    ensures h <= a.nHeight && h <= b.nHeight && a.path[h] == b.path[h]
  {
    CommonAt(a, b, c);
    assert a.path[..c.nHeight + 1] == c.path == b.path[..c.nHeight + 1];
    assert a.path[..c.nHeight + 1][h] == b.path[..c.nHeight + 1][h];
  }

  /** The heights a locator visits from height `h`; `n` counts the blocks named so far, this one included. */
  function LocatorHeights(h: nat, step: nat, n: nat): (r: seq<nat>)
    requires step > 0
    decreases h
    ensures |r| > 0
  {
    if h == 0 then [0]
    else [h] + LocatorHeights(if h > step then h - step else 0, if n > 10 then step * 2 else step, n + 1)
  }

  /** A locator starts where it should, goes strictly down, and ends at the genesis block. */
  lemma {:induction false} LocatorDescends(h: nat, step: nat, n: nat)
    requires step > 0
    ensures var r := LocatorHeights(h, step, n);
            && r[0] == h && r[|r| - 1] == 0
            && forall i, j :: 0 <= i < j < |r| ==> r[i] > r[j]
    decreases h
  {
    if h > 0 {
      LocatorDescends(if h > step then h - step else 0, if n > 10 then step * 2 else step, n + 1);
    }
  }

  /** What has been named so far, and what is still to come. */
  ghost predicate Walked(from: BlockIndex, have: seq<BlockIndex>, all: seq<nat>, h: nat, step: nat) {
    && from.Linked() && step > 0
    && |have| < |all| && all[|have|..] == LocatorHeights(h, step, |have| + 1)
    && forall k :: 0 <= k < |have| ==> all[k] <= from.nHeight && have[k] == from.path[all[k]]
  }

  lemma WalkStart(from: BlockIndex)
    requires from.Linked()
    ensures Walked(from, [], LocatorHeights(from.nHeight, 1, 1), from.nHeight, 1)
  {
  }

  lemma WalkStep(from: BlockIndex, have: seq<BlockIndex>, all: seq<nat>, p: BlockIndex, step: nat)
    requires Walked(from, have, all, p.nHeight, step) && p.nHeight <= from.nHeight && p == from.path[p.nHeight]
    ensures p.nHeight == 0 ==> Located(from, have + [p], all)
    ensures p.nHeight > 0 ==>
              Walked(from, have + [p], all, if p.nHeight > step then p.nHeight - step else 0,
                     if |have| + 1 > 10 then step * 2 else step)
  {
    var rest := all[|have|..];
    assert all[|have|] == rest[0] == p.nHeight;
    assert all[|have| + 1..] == rest[1..];
  }

  ghost predicate Located(from: BlockIndex, have: seq<BlockIndex>, heights: seq<nat>) {
    && |have| == |heights| && |from.path| == from.nHeight + 1
    && forall k :: 0 <= k < |have| ==> heights[k] <= from.nHeight && have[k] == from.path[heights[k]]
  }

  /** Below the last height at which two paths differ stands their highest common block. */
  lemma ForkIs(a: BlockIndex, b: BlockIndex, top: nat, h: int)
    requires a.Linked() && b.Linked() && top == (if a.nHeight < b.nHeight then a.nHeight else b.nHeight)
    requires -1 <= h <= top && (forall k :: h < k <= top ==> a.path[k] != b.path[k])
    requires h >= 0 ==> a.path[h] == b.path[h]
    ensures h == -1 ==> forall c :: !Common(a, b, c)
    ensures h >= 0 ==> Common(a, b, a.path[h]) && forall c :: Common(a, b, c) ==> c.nHeight <= a.path[h].nHeight
  {
    forall c ensures Common(a, b, c) <==> c.nHeight <= top && a.path[c.nHeight] == c == b.path[c.nHeight] {
      CommonAt(a, b, c);
    }
  }

  lemma ValidIsLinked(b: BlockIndex)
    requires b.Valid()
    ensures b.Linked()
  {
  }

  // ----- The active chain -----

  class Chain {
    var vChain: seq<BlockIndex?>
    var tip: BlockIndex?

    /** The chain is exactly the walk from the genesis block to the tip. */
    ghost predicate Valid()
      reads this
    {
      if tip == null then vChain == []
      else
        && tip.Linked() && |vChain| == |tip.path|
        && forall i :: 0 <= i < |vChain| ==> vChain[i] == tip.path[i]
    }

    constructor ()
      ensures Valid() && tip == null
    {
      vChain := [];
      tip := null;
    }

    /** Makes `b` the tip.  The walk stops at the first block that is already in place. */
    method SetTip(b: BlockIndex?)
      requires Valid()
      requires b != null ==> b.Linked()
      modifies this
      ensures Valid() && tip == b
    {
      if b == null {
        vChain := [];
        tip := null;
        return;
      }
      ghost var was := vChain;
      var n := b.nHeight + 1;
      vChain := if |vChain| >= n then vChain[..n] else vChain + seq(n - |vChain|, i => null);
      ghost var resized := vChain;
      var p: BlockIndex? := b;
      ghost var h := b.nHeight;
      while p != null && vChain[p.nHeight] != p
        invariant -1 <= h <= b.nHeight && |vChain| == b.nHeight + 1
        invariant if h == -1 then p == null else p == b.path[h]
        invariant forall k :: h < k <= b.nHeight ==> vChain[k] == b.path[k]
        invariant forall k :: 0 <= k <= h ==> vChain[k] == resized[k]
        invariant tip == old(tip)
        decreases h
      {
        vChain := vChain[p.nHeight := p];
        p := p.pprev;
        h := h - 1;
      }
      if h >= 0 {
        // The block found in place belonged to the old chain, and so did everything below it.
        assert old(tip) != null && was[h] == p;
        assert old(tip).path[h] == p;
        assert old(tip).path[..h + 1] == p.path == b.path[..h + 1];
        forall k | 0 <= k <= h ensures vChain[k] == b.path[k] {
          assert old(tip).path[..h + 1][k] == b.path[..h + 1][k];
        }
      }
      tip := b;
    }

    function At(height: int): (r: BlockIndex?)
      requires Valid()
      reads this
      ensures r != null <==> tip != null && 0 <= height <= tip.nHeight
      ensures r != null ==> r == tip.path[height]
    {
      if height < 0 || height >= |vChain| then null else vChain[height]
    }

    predicate Contains(b: BlockIndex)
      requires Valid() && b.Linked()
      reads this
      ensures Contains(b) <==> tip != null && b in tip.path
    {
      if tip != null then OnPath(tip, b); At(b.nHeight) == b else At(b.nHeight) == b
    }

    function Next(b: BlockIndex): (r: BlockIndex?)
      requires Valid() && b.Linked()
      reads this
      ensures r != null <==> tip != null && b in tip.path && b != tip
      ensures r != null ==> r.pprev == b
    {
      if tip != null then OnPath(tip, b); if Contains(b) then At(b.nHeight + 1) else null
      else null
    }

    function Height(): (h: int)
      requires Valid()
      reads this
      ensures h == |vChain| - 1
    {
      if tip == null then -1 else tip.nHeight
    }

    /** The highest ancestor of `b` on this chain, or null when there is none. */
    method FindFork(b: BlockIndex?) returns (r: BlockIndex?)
      requires Valid()
      requires b != null ==> b.Valid()
      ensures b == null || tip == null ==> r == null
      ensures b != null && tip != null ==> (r == null <==> forall c :: !Common(b, tip, c))
      ensures r != null ==> b != null && tip != null && Common(b, tip, r)
      ensures r != null ==> forall c :: Common(b, tip, c) ==> c.nHeight <= r.nHeight
    {
      if b == null {
        return null;
      }
      r := b;
      if b.nHeight > Height() {
        r := b.GetAncestor(Height());
      }
      ghost var top := if b.nHeight < Height() then b.nHeight else Height();
      ghost var h := top;
      while r != null && !Contains(r)
        invariant -1 <= h <= top
        invariant if h == -1 then r == null else r == b.path[h] && r.Linked()
        invariant forall k :: h < k <= top ==> b.path[k] != tip.path[k]
        decreases h
      {
        OnPath(tip, r);
        if h > 0 { AncestorsAreValid(b, h - 1); }
        r := r.pprev;
        h := h - 1;
      }
      if tip != null { ForkIs(b, tip, top, h); }
    }

    /** The ancestor at a height, read off the chain or by skipping. */
    method Back(from: BlockIndex, p: BlockIndex, height: nat) returns (q: BlockIndex)
      requires Valid() && from.Valid() && p.Valid() && p in from.path && height <= p.nHeight
      ensures q.Valid() && q.nHeight == height <= from.nHeight && q == from.path[height]
    {
      OnPath(from, p);
      AncestorsAreValid(p, height);
      SharedBelow(from, p, p, height);
      if Contains(p) {
        SharedBelow(p, tip, p, height);
        q := vChain[height];
      } else {
        q := p.GetAncestor(height);
      }
    }

    /** Blocks from `b` (or the tip) back to the genesis block, ever further apart. */
    method GetLocator(b: BlockIndex?) returns (have: seq<BlockIndex>)
      requires Valid()
      requires b != null ==> b.Valid()
      requires b == null && tip != null ==> tip.Valid()
      ensures b == null && tip == null ==> have == []
      ensures b != null || tip != null ==>
                var from := if b == null then tip else b;
                Located(from, have, LocatorHeights(from.nHeight, 1, 1))
    {
      hide Walked, Located, LocatorHeights, BlockIndex.Valid, BlockIndex.Linked;
      have := [];
      var from := if b == null then tip else b;
      if from == null {
        return;
      }
      ValidIsLinked(from);
      var p, step := from, 1;
      OnPath(from, from);
      ghost var all := LocatorHeights(from.nHeight, 1, 1);
      WalkStart(from);
      while true
        invariant step > 0 && p in from.path && p.Valid()
        invariant Walked(from, have, all, p.nHeight, step)
        decreases p.nHeight
      {
        OnPath(from, p);
        WalkStep(from, have, all, p, step);
        have := have + [p];
        // Stop when the genesis block has been added.
        if p.nHeight == 0 {
          break;
        }
        var height := if p.nHeight - step > 0 then p.nHeight - step else 0;
        p := Back(from, p, height);
        if |have| > 10 {
          step := step * 2;
        }
      }
    }
  }

  // ----- The difficulty anchor -----

  /** Finds the anchor block of a branch: the block at the anchor height, or the branch's own tip when it is not
      that high.  The last answer is cached across branches. */
  class AsertAnchor {
    const anchorAt: nat
    var cached: BlockIndex?

    ghost predicate Valid()
      reads this
    {
      cached != null ==> cached.Linked() && cached.nHeight == anchorAt
    }

    constructor (anchorAt: nat)
      ensures Valid() && this.anchorAt == anchorAt && cached == null
    {
      this.anchorAt := anchorAt;
      cached := null;
    }

    method GetASERTAnchorBlock(b: BlockIndex) returns (r: BlockIndex)
      requires Valid() && b.Valid()
      modifies this
      ensures Valid()
      ensures r == b.path[if b.nHeight < anchorAt then b.nHeight else anchorAt]
    {
      if b.nHeight < anchorAt {
        return b;
      }
      if cached != null {
        var a := b.GetAncestor(cached.nHeight);
        if a == cached {
          return cached;
        }
      }
      r := b;
      ghost var h := b.nHeight;
      while r.pprev != null
        invariant anchorAt <= h <= b.nHeight && r == b.path[h]
        decreases h
      {
        if r.pskip != null && r.pskip.nHeight >= anchorAt {
          r := r.pskip;
          h := GetSkipHeight(h);
          continue;
        }
        if anchorAt != 0 && r.nHeight == anchorAt {
          break;
        }
        r := r.pprev;
        h := h - 1;
      }
      AncestorsAreValid(b, h);
      assert h > 0 ==> r.pprev == b.path[h - 1];
      cached := r;
    }
  }
}

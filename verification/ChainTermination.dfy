/** When the depth search ends, and what it returns then. */
module ChainTermination {
  import opened Outcomes
  import opened ChainGraph
  import opened ChainDepth

  ghost predicate InBlock(chain: Chain, h: nat, t: Hash) {
    h in chain.blocks && (t == chain.blocks[h].minerId || t in chain.blocks[h].txHashes)
  }

  /** Every ring member of a transaction lies in a strictly lower block. */
  ghost predicate LowerRings(chain: Chain) {
    forall h, t, k, m: nat ::
      InBlock(chain, h, t) && t in chain.txs && 0 <= k < |chain.txs[t].vin| && Refers(chain, chain.txs[t].vin[k], m)
      ==> Referred(chain, chain.txs[t].vin[k], m).height < h
  }

  /** Some input has a ring member. */
  predicate HasRing(chain: Chain, t: Hash) {
    t in chain.txs && exists k :: 0 <= k < |chain.txs[t].vin| && RingIn(chain.txs[t].vin[k])
  }

  predicate RingIn(input: Input) {
    input.ToKey? && input.keyOffsets != []
  }

  /** No transaction of a block leads nowhere. */
  ghost predicate NoneStuck(chain: Chain) {
    forall h, t :: InBlock(chain, h, t) && Expandable(chain, t) ==> HasRing(chain, t)
  }

  lemma StepIsLower(chain: Chain, rule: Rule, h: nat, t: Hash, u: Hash) returns (g: nat)
    requires LowerRings(chain) && InBlock(chain, h, t) && Step(chain, rule, t, u)
    ensures g < h && InBlock(chain, g, u)
  {
    hide LowerRings;
    var k, m: nat :| 0 <= k < |chain.txs[t].vin| && Member(chain, rule, chain.txs[t].vin[k], m, u);
    g := Referred(chain, chain.txs[t].vin[k], m).height;
    LowerMember(chain, h, t, k, m);
    if rule == Found {
      FoundIsCreator(chain, chain.blocks[g], Referred(chain, chain.txs[t].vin[k], m).pubkey, u, u);
    }
  }

  lemma LowerMember(chain: Chain, h: nat, t: Hash, k: nat, m: nat)
    requires LowerRings(chain) && InBlock(chain, h, t) && t in chain.txs && k < |chain.txs[t].vin|
    requires Refers(chain, chain.txs[t].vin[k], m)
    ensures Referred(chain, chain.txs[t].vin[k], m).height < h
  {
    hide Refers, InBlock;
  }

  lemma RingStep(chain: Chain, t: Hash)
    requires Expandable(chain, t)
    ensures HasRing(chain, t) <==> exists u: Hash :: Step(chain, Found, t, u)
  {
    hide Origin;
    if HasRing(chain, t) {
      var k :| 0 <= k < |chain.txs[t].vin| && RingIn(chain.txs[t].vin[k]);
      assert Traceable(chain, chain.txs[t].vin[k]) && HasOrigin(chain, chain.txs[t].vin[k], 0);
      var u: Hash :| Member(chain, Found, chain.txs[t].vin[k], 0, u);
      assert Step(chain, Found, t, u);
    }
  }

  /** The frontier is not empty, and its transactions lie in blocks up to `limit`. */
  ghost predicate Below(chain: Chain, txids: seq<Hash>, limit: int) {
    txids != [] && forall t: Hash :: t in txids ==> exists h: nat :: h <= limit && InBlock(chain, h, t)
  }

  /** The next frontier is not empty either, and it lies in lower blocks. */
  lemma Descends(chain: Chain, txids: seq<Hash>, limit: int)
    requires LowerRings(chain) && NoneStuck(chain) && AllExpand(chain, txids) && Below(chain, txids, limit)
    ensures Below(chain, Next(chain, txids), limit - 1)
  {
    hide LowerRings, Step, InBlock, Expandable, HasRing, Next;
    var t := txids[0];
    assert t in txids;
    RingStep(chain, t);
    var s :| Step(chain, Found, t, s);
    InNext(chain, txids, s);
    forall u | u in Next(chain, txids)
      ensures exists g: nat :: g <= limit - 1 && InBlock(chain, g, u)
    {
      InNext(chain, txids, u);
      var v :| v in txids && Step(chain, Found, v, u);
      var h: nat :| h <= limit && InBlock(chain, h, v);
      var g := StepIsLower(chain, Found, h, v, u);
    }
  }

  lemma {:induction false} PassesBelow(chain: Chain, h: nat, start: Hash, d: nat)
    requires LowerRings(chain) && NoneStuck(chain) && InBlock(chain, h, start) && Passes(chain, start, d)
    ensures Below(chain, Frontier(chain, start, d), h - d) && d <= h
  {
    hide LowerRings, NoneStuck, InBlock, AllExpand, Next;
    if d > 0 {
      PassesBelow(chain, h, start, d - 1);
      Descends(chain, Frontier(chain, start, d - 1), h - d + 1);
    }
    assert Frontier(chain, start, d)[0] in Frontier(chain, start, d);
  }

  /** The search ends at a depth of at most the height of the start. */
  lemma SearchStops(chain: Chain, h: nat, start: Hash)
    requires LowerRings(chain) && NoneStuck(chain) && InBlock(chain, h, start)
    ensures Stops(chain, start)
    ensures forall d: nat :: DoneAt(chain, start, d) || FailsAt(chain, start, d) ==> d <= h
  {
    hide LowerRings, NoneStuck, InBlock, AllExpand, Frontier, MeetsCoinbase;
    forall d: nat | Passes(chain, start, d)
      ensures d <= h
    {
      PassesBelow(chain, h, start, d);
    }
    assert !Passes(chain, start, h + 1);
  }

  lemma NothingNext(chain: Chain, t: Hash)
    requires Expandable(chain, t) && !HasRing(chain, t)
    ensures Next(chain, [t]) == []
  {
    hide Step, Expandable, HasRing, Origins;
    RingStep(chain, t);
    assert Next(chain, [t]) == Next(chain, []) + Origins(chain, t);
    if Origins(chain, t) != [] {
      InOrigins(chain, t, Origins(chain, t)[0]);
    }
  }

  lemma {:induction false} StuckFrontier(chain: Chain, start: Hash, d: nat)
    requires Expandable(chain, start) && !HasRing(chain, start)
    ensures Frontier(chain, start, d) == if d == 0 then [start] else []
  {
    hide Expandable, HasRing;
    if d > 0 {
      StuckFrontier(chain, start, d - 1);
      NothingNext(chain, start);
    }
  }

  /** From a transaction whose inputs have no ring members at all, the search goes round for ever. */
  lemma StuckNeverStops(chain: Chain, start: Hash)
    requires Expandable(chain, start) && !HasRing(chain, start)
    ensures !Stops(chain, start)
  {
    hide Expandable, HasRing, Frontier;
    forall d: nat
      ensures AllExpand(chain, Frontier(chain, start, d))
    {
      StuckFrontier(chain, start, d);
    }
  }

  /** To end is to be done or to give up at some depth; otherwise all rounds are passed. */
  lemma StopsMeans(chain: Chain, start: Hash)
    ensures Stops(chain, start) <==> exists d: nat :: DoneAt(chain, start, d) || FailsAt(chain, start, d)
    ensures Stops(chain, start) <==> exists d: nat :: !Passes(chain, start, d)
  {
    hide AllExpand, Frontier, MeetsCoinbase;
    if d: nat :| !AllExpand(chain, Frontier(chain, start, d)) {
      assert !Passes(chain, start, d + 1);
      LeastStop(chain, start, d);
    }
    if d: nat :| DoneAt(chain, start, d) {
      CoinbaseStops(chain, Frontier(chain, start, d));
    }
  }

  lemma {:induction false} LeastStop(chain: Chain, start: Hash, d: nat)
    requires !AllExpand(chain, Frontier(chain, start, d))
    ensures exists e: nat :: DoneAt(chain, start, e) || FailsAt(chain, start, e)
  {
    hide AllExpand, Frontier, MeetsCoinbase;
    if Passes(chain, start, d) {
      assert DoneAt(chain, start, d) || FailsAt(chain, start, d);
    } else {
      var e: nat :| e < d && !AllExpand(chain, Frontier(chain, start, e));
      LeastStop(chain, start, e);
    }
  }

  /** The search gives up only at a transaction that cannot be read. */
  lemma FailsUnread(chain: Chain, start: Hash, d: nat) returns (t: Hash)
    requires FailsAt(chain, start, d)
    ensures t in Frontier(chain, start, d) && Reach(chain, Found, start, d, t) && !Readable(chain, t)
  {
    hide Frontier, Reach, Expandable, Ends;
    var i := FirstUnexpanded(chain, Frontier(chain, start, d));
    t := Frontier(chain, start, d)[i];
    FirstStop(chain, Frontier(chain, start, d), i);
    FrontierIsLevel(chain, start, d, t);
  }

  lemma {:induction false} FirstUnexpanded(chain: Chain, txids: seq<Hash>) returns (i: nat)
    requires !AllExpand(chain, txids)
    ensures i < |txids| && !Expandable(chain, txids[i]) && AllExpand(chain, txids[..i])
  {
    hide Expandable;
    var n := |txids| - 1;
    if AllExpand(chain, txids[..n]) {
      i := n;
      assert forall t: Hash :: t in txids ==> t in txids[..n] || t == txids[n];
    } else {
      i := FirstUnexpanded(chain, txids[..n]);
      assert txids[..n][..i] == txids[..i];
    }
  }

  /** If every transaction of a block can be read, the search finds the depth, at most the height of the start. */
  lemma DepthExists(chain: Chain, h: nat, start: Hash)
    requires LowerRings(chain) && NoneStuck(chain) && InBlock(chain, h, start)
    requires forall g, t :: InBlock(chain, g, t) ==> Readable(chain, t)
    ensures exists d: nat :: d <= h && DoneAt(chain, start, d)
  {
    hide LowerRings, NoneStuck, InBlock, DoneAt, FailsAt, Stops, Readable, Frontier;
    SearchStops(chain, h, start);
    StopsMeans(chain, start);
    var d: nat :| DoneAt(chain, start, d) || FailsAt(chain, start, d);
    if FailsAt(chain, start, d) {
      var t := FailsUnread(chain, start, d);
      FailsPasses(chain, start, d);
      PassesBelow(chain, h, start, d);
      assert false;
    }
  }

  lemma FailsPasses(chain: Chain, start: Hash, d: nat)
    requires FailsAt(chain, start, d)
    ensures Passes(chain, start, d)
  {
  }

  /** Exactly when the search ends from everywhere: when no transaction of a block leads nowhere. */
  lemma TerminationExact(chain: Chain)
    requires LowerRings(chain)
    ensures (forall h, s :: InBlock(chain, h, s) ==> Stops(chain, s)) <==> NoneStuck(chain)
  {
    hide LowerRings, Stops, Expandable, HasRing, InBlock;
    if NoneStuck(chain) {
      forall h, s | InBlock(chain, h, s)
        ensures Stops(chain, s)
      {
        SearchStops(chain, h, s);
      }
    }
    forall h, t | InBlock(chain, h, t) && Expandable(chain, t) && !HasRing(chain, t)
      ensures !Stops(chain, t)
    {
      StuckNeverStops(chain, t);
    }
  }

  /** The search on every chain on which it ends, without a bound on its rounds. */
  method MinDepth(chain: Chain, start: Hash) returns (r: Option<nat>)
    requires Stops(chain, start)
    ensures forall d: nat :: r == Some(d) <==> DoneAt(chain, start, d)
    ensures r.None? <==> exists d: nat :: FailsAt(chain, start, d)
    ensures r.Some? ==> ShortestToCoinbase(chain, Found, start, r.value)
    ensures r.Some? && UniqueKeys(chain) ==> ShortestToCoinbase(chain, Created, start, r.value)
    ensures r.Some? && LowerRings(chain) && NoneStuck(chain) ==> forall h :: InBlock(chain, h, start) ==> r.value <= h
  {
    hide AllExpand, MeetsCoinbase, ShortestToCoinbase, Next, UniqueKeys, LowerRings, NoneStuck, InBlock;
    ghost var last: nat :| !AllExpand(chain, Frontier(chain, start, last));
    var depth, txids := 0, [start];
    while true
      invariant depth <= last && Passes(chain, start, depth) && txids == Frontier(chain, start, depth)
      decreases last - depth
    {
      var visit := VisitLevel(chain, txids);
      if !visit.Expanded? {
        CoinbaseStops(chain, txids);
        OneEnd(chain, start, depth);
        if visit == Coinbase {
          DoneIsShortest(chain, start, depth);
          DepthBelowHeight(chain, start, depth);
          return Some(depth);
        }
        return None;
      }
      txids := visit.creators;
      depth := depth + 1;
    }
  }

  lemma DepthBelowHeight(chain: Chain, start: Hash, d: nat)
    requires DoneAt(chain, start, d)
    ensures LowerRings(chain) && NoneStuck(chain) ==> forall h :: InBlock(chain, h, start) ==> d <= h
  {
    hide LowerRings, NoneStuck, InBlock, MeetsCoinbase, Passes;
    if LowerRings(chain) && NoneStuck(chain) {
      forall h | InBlock(chain, h, start)
        ensures d <= h
      {
        SearchStops(chain, h, start);
      }
    }
  }

  /*---- When a coinbase is in reach ----*/

  ghost predicate ReachesCoinbase(chain: Chain, rule: Rule, s: Hash) {
    exists d: nat, t :: Reach(chain, rule, s, d, t) && IsCoinbase(chain, t)
  }

  lemma {:induction false} PrefixStep(chain: Chain, rule: Rule, s: Hash, u: Hash, d: nat, t: Hash)
    requires Step(chain, rule, s, u) && Reach(chain, rule, u, d, t)
    ensures Reach(chain, rule, s, d + 1, t)
  {
    hide Step;
    if d == 0 {
      assert Reach(chain, rule, s, 0, s);
    } else {
      var v :| Reach(chain, rule, u, d - 1, v) && Step(chain, rule, v, t);
      PrefixStep(chain, rule, s, u, d - 1, v);
    }
  }

  lemma {:induction false} OnlyItself(chain: Chain, rule: Rule, s: Hash, d: nat, t: Hash)
    requires (forall u: Hash :: !Step(chain, rule, s, u)) && Reach(chain, rule, s, d, t)
    ensures d == 0 && t == s
  {
    hide Step;
    if d > 0 {
      var v :| Reach(chain, rule, s, d - 1, v) && Step(chain, rule, v, t);
      OnlyItself(chain, rule, s, d - 1, v);
    }
  }

  lemma {:induction false} Descent(chain: Chain, rule: Rule, h: nat, s: Hash)
    requires LowerRings(chain) && InBlock(chain, h, s)
    requires forall g, t :: InBlock(chain, g, t) && !IsCoinbase(chain, t) ==> exists u: Hash :: Step(chain, rule, t, u)
    ensures ReachesCoinbase(chain, rule, s)
    decreases h
  {
    hide LowerRings, InBlock, IsCoinbase, Step;
    if IsCoinbase(chain, s) {
      assert Reach(chain, rule, s, 0, s);
    } else {
      var u :| Step(chain, rule, s, u);
      var g := StepIsLower(chain, rule, h, s, u);
      Descent(chain, rule, g, u);
      var d: nat, t :| Reach(chain, rule, u, d, t) && IsCoinbase(chain, t);
      PrefixStep(chain, rule, s, u, d, t);
    }
  }

  /** Every transaction has a path to a coinbase exactly when every one that is none has a step. */
  lemma CoinbaseInReach(chain: Chain, rule: Rule)
    requires LowerRings(chain)
    ensures (forall h, s :: InBlock(chain, h, s) ==> ReachesCoinbase(chain, rule, s))
            <==> (forall h, t :: InBlock(chain, h, t) && !IsCoinbase(chain, t) ==>
                    exists u: Hash :: Step(chain, rule, t, u))
  {
    hide LowerRings, InBlock, IsCoinbase, Step, Reach;
    if forall h, t :: InBlock(chain, h, t) && !IsCoinbase(chain, t) ==> exists u: Hash :: Step(chain, rule, t, u) {
      forall h, s | InBlock(chain, h, s)
        ensures ReachesCoinbase(chain, rule, s)
      {
        Descent(chain, rule, h, s);
      }
    }
    forall h, s | InBlock(chain, h, s) && ReachesCoinbase(chain, rule, s) && !IsCoinbase(chain, s)
      ensures exists u: Hash :: Step(chain, rule, s, u)
    {
      if forall u: Hash :: !Step(chain, rule, s, u) {
        var d: nat, t :| Reach(chain, rule, s, d, t) && IsCoinbase(chain, t);
        OnlyItself(chain, rule, s, d, t);
      }
    }
  }
}

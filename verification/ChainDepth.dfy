/**
 The minimum depth of a transaction: how many ring-member steps lead from it to a coinbase
 transaction, searched level by level.
 */
module ChainDepth {
  import opened Outcomes
  import opened RingOffsets
  import opened ChainGraph

  /*---- The search ----*/

  datatype Scan = FoundKey | NoKey | BadOutput

  /** Looks for a key among the outputs of one transaction. */
  method ScanOutputs(vout: seq<Output>, key: PublicKey) returns (r: Scan)
    ensures r == FoundKey <==> Shows(vout, key)
    ensures r == NoKey <==> Lacks(vout, key)
  {
    for out := 0 to |vout|
      invariant Lacks(vout[..out], key)
    {
      if vout[out].KeyOutput? {
        if vout[out].key == key {
          return FoundKey;
        }
      } else {
        return BadOutput;
      }
    }
    assert vout[..|vout|] == vout;
    return NoKey;
  }

  lemma Stopped(chain: Chain, b: Block, key: PublicKey, p: nat)
    requires p <= |b.txHashes| && forall q: nat :: q < p ==> LacksAt(chain, b, key, q)
    requires !LacksAt(chain, b, key, p) && !(Known(chain, b, p) && Shows(OutputsAt(chain, b, p), key))
    ensures forall u: Hash :: !Origin(chain, Found, b, key, u)
  {
    hide LacksAt, Shows;
    forall q: nat | FirstWith(chain, b, key, q)
      ensures false
    {
      if q < p {
        FirstLacks(chain, b, key, q);
      }
    }
  }

  lemma Settled(chain: Chain, b: Block, key: PublicKey, p: nat)
    requires FirstWith(chain, b, key, p)
    ensures Origin(chain, Found, b, key, HashAt(b, p))
  {
  }

  /** The transaction of a block that created the output with the given key: the first that shows it. */
  method FindCreator(chain: Chain, b: Block, key: PublicKey) returns (r: Option<Hash>)
    ensures forall u: Hash :: r == Some(u) <==> Origin(chain, Found, b, key, u)
  {
    hide Shows, Lacks, Origin;
    var scan := ScanOutputs(b.minerTx.vout, key);
    if scan == FoundKey {
      Settled(chain, b, key, 0);
      OnlyOrigin(chain, b, key, b.minerId);
      return Some(b.minerId);
    } else if scan == BadOutput {
      Stopped(chain, b, key, 0);
      return None;
    }
    for i := 0 to |b.txHashes|
      invariant forall q: nat :: q <= i ==> LacksAt(chain, b, key, q)
    {
      var blockTxid := b.txHashes[i];
      if blockTxid !in chain.txs {
        Stopped(chain, b, key, i + 1);
        return None;
      }
      scan := ScanOutputs(chain.txs[blockTxid].vout, key);
      if scan == FoundKey {
        Settled(chain, b, key, i + 1);
        OnlyOrigin(chain, b, key, blockTxid);
        return Some(blockTxid);
      } else if scan == BadOutput {
        Stopped(chain, b, key, i + 1);
        return None;
      }
    }
    Exhausted(chain, b, key);
    return None;
  }

  lemma OnlyOrigin(chain: Chain, b: Block, key: PublicKey, u: Hash)
    requires Origin(chain, Found, b, key, u)
    ensures forall v: Hash :: Origin(chain, Found, b, key, v) ==> u == v
  {
    hide Origin;
    forall v | Origin(chain, Found, b, key, v)
      ensures u == v
    {
      FoundIsCreator(chain, b, key, u, v);
    }
  }

  lemma Exhausted(chain: Chain, b: Block, key: PublicKey)
    requires forall q: nat :: q <= |b.txHashes| ==> LacksAt(chain, b, key, q)
    ensures forall u: Hash :: !Origin(chain, Found, b, key, u)
  {
    hide LacksAt, Shows;
    forall q: nat | FirstWith(chain, b, key, q)
      ensures false
    {
      FirstLacks(chain, b, key, q);
    }
  }

  /** The origins of the ring members of one input; none exactly if some member cannot be traced. */
  method ExpandInput(chain: Chain, input: Input) returns (r: Option<seq<Hash>>)
    requires input.ToKey?
    ensures r.Some? <==> Traceable(chain, input)
    ensures r.Some? ==> r.value == InputOrigins(chain, input)
  {
    hide Origin;
    var absoluteOffsets := ToAbsolute(input.keyOffsets);
    assert absoluteOffsets == Absolute(input.keyOffsets);
    hide Absolute;
    var creators: seq<Hash> := [];
    for m := 0 to |absoluteOffsets|
      invariant |creators| == m
      invariant forall i: nat :: i < m ==> Member(chain, Found, input, i, creators[i])
    {
      if (input.amount, absoluteOffsets[m]) !in chain.outputs {
        Untraceable(chain, input, m);
        return None;
      }
      var od := chain.outputs[(input.amount, absoluteOffsets[m])];
      if od.height !in chain.blocks {
        Untraceable(chain, input, m);
        return None;
      }
      var creator := FindCreator(chain, chain.blocks[od.height], od.pubkey);
      if creator.None? {
        Untraceable(chain, input, m);
        return None;
      }
      assert Member(chain, Found, input, m, creator.value);
      creators := creators + [creator.value];
    }
    AllTraced(chain, input, creators);
    return Some(creators);
  }

  lemma Untraceable(chain: Chain, input: Input, m: nat)
    requires input.ToKey? && m < |input.keyOffsets| && !HasOrigin(chain, input, m)
    ensures !Traceable(chain, input)
  {
    hide Member;
  }

  lemma AllTraced(chain: Chain, input: Input, creators: seq<Hash>)
    requires input.ToKey? && |creators| == |input.keyOffsets|
    requires forall i: nat :: i < |creators| ==> Member(chain, Found, input, i, creators[i])
    ensures Traceable(chain, input) && creators == InputOrigins(chain, input)
  {
    hide Member;
    forall m: nat | m < |creators|
      ensures HasOrigin(chain, input, m) && MemberOrigin(chain, input, m) == creators[m]
    {
      OriginIs(chain, input, m, creators[m]);
    }
  }

  datatype Visit = Coinbase | Failed | Expanded(creators: seq<Hash>)

  /** One transaction of the frontier. */
  method VisitTransaction(chain: Chain, t: Hash) returns (r: Visit)
    ensures r == Coinbase <==> Ends(chain, t)
    ensures r.Expanded? <==> Expandable(chain, t)
    ensures r.Expanded? ==> r.creators == Origins(chain, t)
  {
    hide Traceable, InputOrigins;
    if t !in chain.txs {
      return Failed;
    }
    var tx := chain.txs[t];
    var creators: seq<Hash> := [];
    for ring := 0 to |tx.vin|
      invariant forall k :: 0 <= k < ring ==> Traceable(chain, tx.vin[k]) && tx.vin[k].ToKey?
      invariant creators == AllOrigins(chain, tx.vin[..ring])
    {
      var input := tx.vin[ring];
      OnlyKeysTraceable(chain, input);
      if input.Gen? {
        assert FirstGen(chain, tx.vin, ring);
        return Coinbase;
      }
      if input.ToKey? {
        var members := ExpandInput(chain, input);
        if members.None? {
          return Failed;
        }
        assert tx.vin[..ring + 1][..ring] == tx.vin[..ring];
        creators := creators + members.value;
      } else {
        return Failed;
      }
    }
    assert tx.vin[..|tx.vin|] == tx.vin;
    return Expanded(creators);
  }

  lemma OnlyKeysTraceable(chain: Chain, input: Input)
    ensures Traceable(chain, input) ==> input.ToKey?
  {
  }

  /*---- Level by level ----*/

  ghost predicate AllExpand(chain: Chain, txids: seq<Hash>) {
    forall t: Hash :: t in txids ==> Expandable(chain, t)
  }

  /** A transaction that ends the search is met before any that cannot be read. */
  ghost predicate MeetsCoinbase(chain: Chain, txids: seq<Hash>) {
    exists i :: 0 <= i < |txids| && Ends(chain, txids[i]) && AllExpand(chain, txids[..i])
  }

  ghost function Next(chain: Chain, txids: seq<Hash>): seq<Hash> {
    if txids == [] then [] else Next(chain, txids[..|txids| - 1]) + Origins(chain, txids[|txids| - 1])
  }

  /** The frontier after d rounds: origins in order, with their duplicates. */
  ghost function Frontier(chain: Chain, start: Hash, d: nat): seq<Hash> {
    if d == 0 then [start] else Next(chain, Frontier(chain, start, d - 1))
  }

  /** The search passes the first d frontiers. */
  ghost predicate Passes(chain: Chain, start: Hash, d: nat) {
    forall e: nat :: e < d ==> AllExpand(chain, Frontier(chain, start, e))
  }

  ghost predicate DoneAt(chain: Chain, start: Hash, d: nat) {
    Passes(chain, start, d) && MeetsCoinbase(chain, Frontier(chain, start, d))
  }

  ghost predicate FailsAt(chain: Chain, start: Hash, d: nat) {
    && Passes(chain, start, d)
    && !AllExpand(chain, Frontier(chain, start, d)) && !MeetsCoinbase(chain, Frontier(chain, start, d))
  }

  /** The search comes to an end. */
  ghost predicate Stops(chain: Chain, start: Hash) {
    exists d: nat :: !AllExpand(chain, Frontier(chain, start, d))
  }

  lemma CoinbaseStops(chain: Chain, txids: seq<Hash>)
    ensures MeetsCoinbase(chain, txids) ==> !AllExpand(chain, txids)
  {
    hide Ends, Expandable;
    if i :| 0 <= i < |txids| && Ends(chain, txids[i]) && AllExpand(chain, txids[..i]) {
      ExpandableOrEnds(chain, txids[i]);
    }
  }

  /** One round over the frontier. */
  method VisitLevel(chain: Chain, txids: seq<Hash>) returns (r: Visit)
    ensures r == Coinbase <==> MeetsCoinbase(chain, txids)
    ensures r.Expanded? <==> AllExpand(chain, txids)
    ensures r.Expanded? ==> r.creators == Next(chain, txids)
  {
    hide Ends, Expandable, Origins, MeetsCoinbase;
    CoinbaseStops(chain, txids);
    var newTxids: seq<Hash> := [];
    for i := 0 to |txids|
      invariant AllExpand(chain, txids[..i]) && newTxids == Next(chain, txids[..i])
    {
      var visit := VisitTransaction(chain, txids[i]);
      assert txids[i] in txids;
      if !visit.Expanded? {
        FirstStop(chain, txids, i);
        return visit;
      }
      assert txids[..i + 1][..i] == txids[..i];
      newTxids := newTxids + visit.creators;
    }
    assert txids[..|txids|] == txids;
    return Expanded(newTxids);
  }

  lemma FirstStop(chain: Chain, txids: seq<Hash>, i: nat)
    requires i < |txids| && AllExpand(chain, txids[..i]) && !Expandable(chain, txids[i])
    ensures MeetsCoinbase(chain, txids) <==> Ends(chain, txids[i])
  {
    hide Ends, Expandable;
    if k :| 0 <= k < |txids| && Ends(chain, txids[k]) && AllExpand(chain, txids[..k]) {
      ExpandableOrEnds(chain, txids[k]);
      assert i < k ==> txids[..k][i] == txids[i];
      assert k < i ==> txids[..i][k] == txids[k];
    }
  }

  datatype Progress = Done(depth: nat) | Aborted | Running

  /**
   The search on any chain, stopped after `rounds` rounds.  When it is done, the depth is that of a
   shortest walk to a coinbase, and of a shortest ring-member path when output keys are unique.
   */
  method Search(chain: Chain, start: Hash, rounds: nat) returns (r: Progress)
    ensures forall d: nat :: r == Done(d) <==> d < rounds && DoneAt(chain, start, d)
    ensures r.Aborted? <==> exists d: nat :: d < rounds && FailsAt(chain, start, d)
    ensures r.Running? <==> Passes(chain, start, rounds)
    ensures r.Done? ==> ShortestToCoinbase(chain, Found, start, r.depth)
    ensures r.Done? && UniqueKeys(chain) ==> ShortestToCoinbase(chain, Created, start, r.depth)
  {
    hide AllExpand, MeetsCoinbase, ShortestToCoinbase, Next, UniqueKeys;
    var txids := [start];
    for depth := 0 to rounds
      invariant Passes(chain, start, depth) && txids == Frontier(chain, start, depth)
    {
      var visit := VisitLevel(chain, txids);
      if !visit.Expanded? {
        CoinbaseStops(chain, txids);
        OneEnd(chain, start, depth);
        if visit == Coinbase {
          DoneIsShortest(chain, start, depth);
          return Done(depth);
        }
        return Aborted;
      }
      txids := visit.creators;
    }
    PassesOn(chain, start, rounds);
    return Running;
  }

  /** The search ends in one way only. */
  lemma OneEnd(chain: Chain, start: Hash, d: nat)
    requires Passes(chain, start, d) && !AllExpand(chain, Frontier(chain, start, d))
    ensures DoneAt(chain, start, d) != FailsAt(chain, start, d)
    ensures forall e: nat :: e > d ==> !Passes(chain, start, e)
    ensures forall e: nat :: e != d ==> !DoneAt(chain, start, e) && !FailsAt(chain, start, e)
  {
    hide AllExpand, MeetsCoinbase, Frontier;
    forall e: nat
      ensures MeetsCoinbase(chain, Frontier(chain, start, e)) ==> !AllExpand(chain, Frontier(chain, start, e))
    {
      CoinbaseStops(chain, Frontier(chain, start, e));
    }
  }

  lemma PassesOn(chain: Chain, start: Hash, d: nat)
    requires Passes(chain, start, d)
    ensures forall e: nat :: e < d ==> !DoneAt(chain, start, e) && !FailsAt(chain, start, e)
  {
    hide AllExpand, MeetsCoinbase, Frontier;
    forall e: nat
      ensures MeetsCoinbase(chain, Frontier(chain, start, e)) ==> !AllExpand(chain, Frontier(chain, start, e))
    {
      CoinbaseStops(chain, Frontier(chain, start, e));
    }
  }

  /*---- Frontiers and walks ----*/

  lemma {:induction false} InNext(chain: Chain, txids: seq<Hash>, u: Hash)
    requires AllExpand(chain, txids)
    ensures u in Next(chain, txids) <==> exists t: Hash :: t in txids && Step(chain, Found, t, u)
  {
    hide Expandable, Origins, Step;
    if txids != [] {
      var n := |txids| - 1;
      assert forall t: Hash :: t in txids <==> t in txids[..n] || t == txids[n];
      InNext(chain, txids[..n], u);
      InOrigins(chain, txids[n], u);
    }
  }

  /** A frontier holds exactly the ends of the walks that the search follows, though it keeps duplicates. */
  lemma {:induction false} FrontierIsLevel(chain: Chain, start: Hash, d: nat, t: Hash)
    requires Passes(chain, start, d)
    ensures t in Frontier(chain, start, d) <==> Reach(chain, Found, start, d, t)
  {
    hide AllExpand, Step, Next;
    if d > 0 {
      var e, txids := d - 1, Frontier(chain, start, d - 1);
      InNext(chain, txids, t);
      forall s: Hash
        ensures s in txids <==> Reach(chain, Found, start, e, s)
      {
        FrontierIsLevel(chain, start, e, s);
      }
    }
  }

  /** From a transaction that can be traced, unique keys leave no other step. */
  lemma SameStep(chain: Chain, t: Hash, u: Hash)
    requires Expandable(chain, t)
    ensures Step(chain, Found, t, u) ==> Step(chain, Created, t, u)
    ensures UniqueKeys(chain) && Step(chain, Created, t, u) ==> Step(chain, Found, t, u)
  {
    hide Origin, UniqueKeys;
    if k, m: nat :| 0 <= k < |chain.txs[t].vin| && Member(chain, Found, chain.txs[t].vin[k], m, u) {
      SameMember(chain, chain.txs[t].vin[k], m, u, u);
      assert Member(chain, Created, chain.txs[t].vin[k], m, u);
    }
    if k, m: nat :| 0 <= k < |chain.txs[t].vin| && Member(chain, Created, chain.txs[t].vin[k], m, u) {
      var input := chain.txs[t].vin[k];
      assert Traceable(chain, input) && HasOrigin(chain, input, m);
      var v: Hash :| Member(chain, Found, input, m, v);
      SameMember(chain, input, m, v, u);
    }
  }

  lemma SameMember(chain: Chain, input: Input, m: nat, v: Hash, u: Hash)
    requires Member(chain, Found, input, m, v)
    ensures Member(chain, Created, input, m, v)
    ensures UniqueKeys(chain) && Member(chain, Created, input, m, u) ==> u == v
  {
    hide FirstWith;
    var od := Referred(chain, input, m);
    FoundIsCreator(chain, chain.blocks[od.height], od.pubkey, v, v);
  }

  lemma {:induction false} SameReach(chain: Chain, start: Hash, d: nat, t: Hash)
    requires Passes(chain, start, d)
    ensures Reach(chain, Found, start, d, t) ==> Reach(chain, Created, start, d, t)
    ensures UniqueKeys(chain) && Reach(chain, Created, start, d, t) ==> Reach(chain, Found, start, d, t)
  {
    hide Step, UniqueKeys, Expandable, Frontier;
    if d > 0 {
      if s: Hash :| Reach(chain, Found, start, d - 1, s) && Step(chain, Found, s, t) {
        SameReach(chain, start, d - 1, s);
        FrontierIsLevel(chain, start, d - 1, s);
        SameStep(chain, s, t);
      }
      if s: Hash :| Reach(chain, Created, start, d - 1, s) && Step(chain, Created, s, t) && UniqueKeys(chain) {
        SameReach(chain, start, d - 1, s);
        FrontierIsLevel(chain, start, d - 1, s);
        SameStep(chain, s, t);
        assert Step(chain, Found, s, t);
      }
    }
  }

  /** Before the search is done it has met no coinbase. */
  lemma NoEarlierCoinbase(chain: Chain, start: Hash, d: nat, e: nat, t: Hash)
    requires Passes(chain, start, d) && e < d && Reach(chain, Found, start, e, t)
    ensures !IsCoinbase(chain, t)
  {
    hide Expandable, Frontier, Reach;
    FrontierIsLevel(chain, start, e, t);
    ExpandableOrEnds(chain, t);
  }

  lemma DoneIsShortest(chain: Chain, start: Hash, d: nat)
    requires DoneAt(chain, start, d)
    ensures ShortestToCoinbase(chain, Found, start, d)
    ensures UniqueKeys(chain) ==> ShortestToCoinbase(chain, Created, start, d)
  {
    hide Ends, Frontier, Reach, IsCoinbase, UniqueKeys, AllExpand;
    var i :| 0 <= i < |Frontier(chain, start, d)| && Ends(chain, Frontier(chain, start, d)[i]);
    var t := Frontier(chain, start, d)[i];
    ExpandableOrEnds(chain, t);
    FrontierIsLevel(chain, start, d, t);
    SameReach(chain, start, d, t);
    forall e: nat, s | e < d
      ensures Reach(chain, Found, start, e, s) ==> !IsCoinbase(chain, s)
      ensures UniqueKeys(chain) && Reach(chain, Created, start, e, s) ==> !IsCoinbase(chain, s)
    {
      SameReach(chain, start, e, s);
      if Reach(chain, Found, start, e, s) {
        NoEarlierCoinbase(chain, start, d, e, s);
      }
    }
  }
}

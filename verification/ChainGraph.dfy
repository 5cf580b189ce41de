/**
 The chain as the depth search sees it, and the steps from a transaction to the creators of
 its ring members.  The chain is given by maps instead of the database, and a transaction or
 block that cannot be read is absent from its map.
 */
module ChainGraph {
  import opened RingOffsets

  type Hash = nat
  type PublicKey = nat

  datatype Input = Gen | ToKey(amount: nat, keyOffsets: seq<uint64>) | OtherInput
  datatype Output = KeyOutput(key: PublicKey) | OtherOutput
  datatype Transaction = Transaction(vin: seq<Input>, vout: seq<Output>)
  datatype Block = Block(minerId: Hash, minerTx: Transaction, txHashes: seq<Hash>)
  datatype OutputData = OutputData(pubkey: PublicKey, height: nat)

  datatype Chain = Chain(txs: map<Hash, Transaction>, blocks: map<nat, Block>, outputs: map<(nat, nat), OutputData>)

  /*---- Who created an output ----*/

  predicate HasKey(tx: Transaction, key: PublicKey) {
    KeyOutput(key) in tx.vout
  }

  /** Transaction u of block b created an output with this key. */
  predicate Creates(chain: Chain, b: Block, key: PublicKey, u: Hash) {
    || (u == b.minerId && HasKey(b.minerTx, key))
    || (u in b.txHashes && u in chain.txs && HasKey(chain.txs[u], key))
  }

  /** The key is met before any output of another kind. */
  ghost predicate Shows(vout: seq<Output>, key: PublicKey) {
    exists i :: 0 <= i < |vout| && vout[i] == KeyOutput(key) && OtherOutput !in vout[..i]
  }

  predicate Lacks(vout: seq<Output>, key: PublicKey) {
    KeyOutput(key) !in vout && OtherOutput !in vout
  }

  /** The transactions of a block in order: the miner transaction, then the others. */
  function HashAt(b: Block, p: nat): Hash
    requires p <= |b.txHashes|
  {
    if p == 0 then b.minerId else b.txHashes[p - 1]
  }

  predicate Known(chain: Chain, b: Block, p: nat)
    requires p <= |b.txHashes|
  {
    p == 0 || b.txHashes[p - 1] in chain.txs
  }

  function OutputsAt(chain: Chain, b: Block, p: nat): seq<Output>
    requires p <= |b.txHashes| && Known(chain, b, p)
  {
    if p == 0 then b.minerTx.vout else chain.txs[b.txHashes[p - 1]].vout
  }

  ghost predicate LacksAt(chain: Chain, b: Block, key: PublicKey, p: nat)
    requires p <= |b.txHashes|
  {
    Known(chain, b, p) && Lacks(OutputsAt(chain, b, p), key)
  }

  /** Transaction p is the first one of the block with the key, and nothing before it stops the scan. */
  ghost predicate FirstWith(chain: Chain, b: Block, key: PublicKey, p: nat) {
    && p <= |b.txHashes| && Known(chain, b, p) && Shows(OutputsAt(chain, b, p), key)
    && forall q: nat :: q < p ==> LacksAt(chain, b, key, q)
  }

  /** What makes a transaction the origin of an output: that it created it, or that the search finds it. */
  datatype Rule = Created | Found

  ghost predicate Origin(chain: Chain, rule: Rule, b: Block, key: PublicKey, u: Hash) {
    match rule
    case Created => Creates(chain, b, key, u)
    case Found => exists p: nat :: FirstWith(chain, b, key, p) && HashAt(b, p) == u
  }

  lemma FirstLacks(chain: Chain, b: Block, key: PublicKey, p: nat)
    requires FirstWith(chain, b, key, p)
    ensures !LacksAt(chain, b, key, p)
  {
  }

  lemma FirstIsUnique(chain: Chain, b: Block, key: PublicKey, p: nat, q: nat)
    requires FirstWith(chain, b, key, p) && FirstWith(chain, b, key, q)
    ensures p == q
  {
    hide LacksAt, Shows;
    FirstLacks(chain, b, key, p);
    FirstLacks(chain, b, key, q);
  }

  /** What the search finds is a creator, and at most one is found. */
  lemma FoundIsCreator(chain: Chain, b: Block, key: PublicKey, u: Hash, v: Hash)
    requires Origin(chain, Found, b, key, u)
    ensures Origin(chain, Created, b, key, u)
    ensures Origin(chain, Found, b, key, v) ==> u == v
  {
    var p: nat :| FirstWith(chain, b, key, p) && HashAt(b, p) == u;
    if Origin(chain, Found, b, key, v) {
      var q: nat :| FirstWith(chain, b, key, q) && HashAt(b, q) == v;
      FirstIsUnique(chain, b, key, p, q);
    }
  }

  /*---- The graph ----*/

  /** The m-th ring member of an input refers to an output, whose block can be read. */
  predicate Refers(chain: Chain, input: Input, m: nat) {
    && input.ToKey? && m < |input.keyOffsets|
    && (input.amount, Absolute(input.keyOffsets)[m]) in chain.outputs
    && chain.outputs[(input.amount, Absolute(input.keyOffsets)[m])].height in chain.blocks
  }

  function Referred(chain: Chain, input: Input, m: nat): OutputData
    requires Refers(chain, input, m)
  {
    chain.outputs[(input.amount, Absolute(input.keyOffsets)[m])]
  }

  /** A ring member is an output of the input's own amount, at the sum of the offsets up to it. */
  lemma ReferredIs(chain: Chain, input: Input, m: nat)
    requires Refers(chain, input, m)
    ensures Referred(chain, input, m) == chain.outputs[(input.amount, Total(input.keyOffsets[..m + 1]) % UINT64)]
  {
  }

  /** Outputs of other amounts do not matter. */
  lemma OwnAmount(chain: Chain, other: Chain, input: Input, m: nat)
    requires input.ToKey? && chain.blocks == other.blocks
    requires forall i: nat :: (input.amount, i) in chain.outputs <==> (input.amount, i) in other.outputs
    requires forall i: nat :: (input.amount, i) in chain.outputs ==>
               chain.outputs[(input.amount, i)] == other.outputs[(input.amount, i)]
    ensures Refers(chain, input, m) <==> Refers(other, input, m)
    ensures Refers(chain, input, m) ==> Referred(chain, input, m) == Referred(other, input, m)
  {
    hide Absolute;
  }

  ghost predicate Member(chain: Chain, rule: Rule, input: Input, m: nat, u: Hash) {
    Refers(chain, input, m)
    && Origin(chain, rule, chain.blocks[Referred(chain, input, m).height], Referred(chain, input, m).pubkey, u)
  }

  /** Some ring member of transaction t comes from transaction u. */
  ghost predicate Step(chain: Chain, rule: Rule, t: Hash, u: Hash) {
    t in chain.txs && exists k, m: nat ::
      0 <= k < |chain.txs[t].vin| && Member(chain, rule, chain.txs[t].vin[k], m, u)
  }

  predicate IsCoinbase(chain: Chain, t: Hash) {
    t in chain.txs && Gen in chain.txs[t].vin
  }

  /** A walk of d steps leads from `start` to t. */
  ghost predicate Reach(chain: Chain, rule: Rule, start: Hash, d: nat, t: Hash) {
    if d == 0 then t == start else exists s: Hash :: Reach(chain, rule, start, d - 1, s) && Step(chain, rule, s, t)
  }

  /** d is the length of a shortest walk from `start` to a coinbase transaction. */
  ghost predicate ShortestToCoinbase(chain: Chain, rule: Rule, start: Hash, d: nat) {
    && (exists t: Hash :: Reach(chain, rule, start, d, t) && IsCoinbase(chain, t))
    && forall e: nat, t :: e < d && Reach(chain, rule, start, e, t) ==> !IsCoinbase(chain, t)
  }

  /** An explicit path: consecutive transactions are ring-member steps apart. */
  ghost predicate IsPath(chain: Chain, rule: Rule, path: seq<Hash>) {
    path != [] && forall i :: 0 <= i < |path| - 1 ==> Step(chain, rule, path[i], path[i + 1])
  }

  /** Reach is what paths of transactions say. */
  lemma {:induction false} ReachIsPath(chain: Chain, rule: Rule, start: Hash, d: nat, t: Hash)
    ensures Reach(chain, rule, start, d, t) <==>
            exists path :: IsPath(chain, rule, path) && |path| == d + 1 && path[0] == start && path[d] == t
  {
    hide Step;
    if d == 0 {
      assert t == start ==> IsPath(chain, rule, [start]);
    } else {
      if Reach(chain, rule, start, d, t) {
        var s :| Reach(chain, rule, start, d - 1, s) && Step(chain, rule, s, t);
        ReachIsPath(chain, rule, start, d - 1, s);
        var path :| IsPath(chain, rule, path) && |path| == d && path[0] == start && path[d - 1] == s;
        assert IsPath(chain, rule, path + [t]);
      }
      if exists path :: IsPath(chain, rule, path) && |path| == d + 1 && path[0] == start && path[d] == t {
        var path :| IsPath(chain, rule, path) && |path| == d + 1 && path[0] == start && path[d] == t;
        assert IsPath(chain, rule, path[..d]);
        ReachIsPath(chain, rule, start, d - 1, path[d - 1]);
        assert Step(chain, rule, path[d - 1], path[d]);
      }
    }
  }

  /** Output keys are unique within a block. */
  ghost predicate UniqueKeys(chain: Chain) {
    forall h, key, u, v ::
      h in chain.blocks && Creates(chain, chain.blocks[h], key, u) && Creates(chain, chain.blocks[h], key, v) ==> u == v
  }

  /*---- What the search makes of a transaction ----*/

  ghost predicate HasOrigin(chain: Chain, input: Input, m: nat) {
    exists u: Hash :: Member(chain, Found, input, m, u)
  }

  /** The search finds an origin for every ring member of the input. */
  ghost predicate Traceable(chain: Chain, input: Input) {
    input.ToKey? && forall m: nat :: m < |input.keyOffsets| ==> HasOrigin(chain, input, m)
  }

  /** All inputs can be traced. */
  ghost predicate Expandable(chain: Chain, t: Hash) {
    t in chain.txs && forall k :: 0 <= k < |chain.txs[t].vin| ==> Traceable(chain, chain.txs[t].vin[k])
  }

  ghost predicate FirstGen(chain: Chain, vin: seq<Input>, k: nat) {
    k < |vin| && vin[k].Gen? && forall i :: 0 <= i < k ==> Traceable(chain, vin[i])
  }

  /** There is a Gen input, and all inputs before it can be traced. */
  ghost predicate Ends(chain: Chain, t: Hash) {
    t in chain.txs && exists k: nat :: FirstGen(chain, chain.txs[t].vin, k)
  }

  /** The search goes on from the transaction or ends with it; it gives up at any other. */
  ghost predicate Readable(chain: Chain, t: Hash) {
    Expandable(chain, t) || Ends(chain, t)
  }

  lemma ExpandableOrEnds(chain: Chain, t: Hash)
    ensures Expandable(chain, t) ==> !IsCoinbase(chain, t) && !Ends(chain, t)
    ensures Ends(chain, t) ==> IsCoinbase(chain, t)
  {
    hide Member;
    if Expandable(chain, t) {
      forall k | 0 <= k < |chain.txs[t].vin|
        ensures !chain.txs[t].vin[k].Gen?
      {
        assert Traceable(chain, chain.txs[t].vin[k]);
      }
    }
  }

  ghost function MemberOrigin(chain: Chain, input: Input, m: nat): Hash
    requires HasOrigin(chain, input, m)
  {
    var u: Hash :| Member(chain, Found, input, m, u);
    u
  }

  ghost function InputOrigins(chain: Chain, input: Input): seq<Hash>
    requires Traceable(chain, input)
  {
    seq(|input.keyOffsets|, m requires 0 <= m < |input.keyOffsets| => MemberOrigin(chain, input, m))
  }

  /** The origins of all ring members of the inputs, in order. */
  ghost function AllOrigins(chain: Chain, vin: seq<Input>): seq<Hash> {
    if vin == [] then []
    else
      AllOrigins(chain, vin[..|vin| - 1])
      + (if Traceable(chain, vin[|vin| - 1]) then InputOrigins(chain, vin[|vin| - 1]) else [])
  }

  ghost function Origins(chain: Chain, t: Hash): seq<Hash> {
    if t in chain.txs then AllOrigins(chain, chain.txs[t].vin) else []
  }

  lemma OriginIs(chain: Chain, input: Input, m: nat, u: Hash)
    requires Member(chain, Found, input, m, u)
    ensures MemberOrigin(chain, input, m) == u
  {
    hide Origin;
    var v := MemberOrigin(chain, input, m);
    assert Member(chain, Found, input, m, v);
    var od := Referred(chain, input, m);
    FoundIsCreator(chain, chain.blocks[od.height], od.pubkey, u, v);
  }

  lemma InInputOrigins(chain: Chain, input: Input, u: Hash)
    requires Traceable(chain, input)
    ensures u in InputOrigins(chain, input) <==> exists m: nat :: Member(chain, Found, input, m, u)
  {
    hide Origin;
    var s := InputOrigins(chain, input);
    forall m: nat | m < |input.keyOffsets|
      ensures Member(chain, Found, input, m, s[m])
    {
    }
    forall m: nat | Member(chain, Found, input, m, u)
      ensures u in s
    {
      OriginIs(chain, input, m, u);
      assert s[m] == u;
    }
  }

  lemma {:induction false} InAllOrigins(chain: Chain, vin: seq<Input>, u: Hash)
    requires forall k :: 0 <= k < |vin| ==> Traceable(chain, vin[k])
    ensures u in AllOrigins(chain, vin) <==>
            exists k, m: nat :: 0 <= k < |vin| && Member(chain, Found, vin[k], m, u)
  {
    hide Member, Traceable, InputOrigins;
    if vin != [] {
      var n := |vin| - 1;
      InAllOrigins(chain, vin[..n], u);
      InInputOrigins(chain, vin[n], u);
      if k, m: nat :| 0 <= k < |vin| && Member(chain, Found, vin[k], m, u) {
        assert k < n ==> Member(chain, Found, vin[..n][k], m, u);
      }
      if k, m: nat :| 0 <= k < n && Member(chain, Found, vin[..n][k], m, u) {
        assert Member(chain, Found, vin[k], m, u);
      }
    }
  }

  /** The origins are exactly the transactions one step away. */
  lemma InOrigins(chain: Chain, t: Hash, u: Hash)
    requires Expandable(chain, t)
    ensures u in Origins(chain, t) <==> Step(chain, Found, t, u)
  {
    hide Member, Traceable, AllOrigins;
    InAllOrigins(chain, chain.txs[t].vin, u);
  }
}

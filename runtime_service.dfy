/// The bookkeeping of the light client's runtime service (bin/wasm-node/rust/src/runtime_service.rs):
/// the latest known runtime of the best block, its update on every new best block, and the
/// notification of the best-block and runtime-version subscribers.
///
/// Compiling a runtime and reading its version is the function `compile` of the state, which
/// `SuccessfulRuntime::from_params` (`FromParams`) wraps; channel sends, storage queries and the
/// sync service's answers are inputs of the operations.
module RuntimeService {
  import opened Wrappers
  import ScaleCodec

  type Bytes = seq<ScaleCodec.Byte>

  /// `executor::CoreVersion`, the runtime specification.
  type CoreVersion(==)
  /// A block hash or a state root, `[u8; 32]`.
  type Hash(==)
  /// The sending half of a channel to a runtime-version subscriber.
  type VersionSender(==, !new)
  /// The sending half of a channel to a best-block subscriber.
  type BestSender(==, !new)

  /// `SuccessfulRuntime` without its virtual machine.
  datatype SuccessfulRuntime = SuccessfulRuntime(metadata: Option<Bytes>, runtimeSpec: CoreVersion)

  /// `Result<SuccessfulRuntime, ()>`.
  datatype RuntimeResult = Compiled(runtime: SuccessfulRuntime) | Invalid

  /// `Result<CoreVersion, ()>`, what version subscribers receive.
  datatype VersionResult = Version(spec: CoreVersion) | VersionErr

  /// The version a runtime reports: its specification, or an error for an invalid runtime.
  function SpecOf(r: RuntimeResult): (v: VersionResult)
    ensures v.Version? <==> r.Compiled?
    ensures v.Version? ==> v.spec == r.runtime.runtimeSpec
  {
    match r
    case Compiled(runtime) => Version(runtime.runtimeSpec)
    case Invalid => VersionErr
  }

  /// `SuccessfulRuntime::from_params`: a missing `:code` is an error; otherwise the runtime is
  /// compiled and its version read by `compile`. A fresh runtime has no metadata cached.
  function FromParams(compile: (Bytes, Option<Bytes>) -> Option<CoreVersion>, params: RuntimeParams): (r: RuntimeResult)
    ensures params.code.None? ==> r == Invalid
    ensures r.Compiled? <==> params.code.Some? && compile(params.code.value, params.heapPages).Some?
    ensures r.Compiled? ==> r.runtime == SuccessfulRuntime(None, compile(params.code.value, params.heapPages).value)
  {
    if params.code.None? then Invalid
    else match compile(params.code.value, params.heapPages)
      case None => Invalid
      case Some(spec) => Compiled(SuccessfulRuntime(None, spec))
  }

  /// A new best block, its header already decoded.
  datatype BestBlock = BestBlock(scaleEncoded: Bytes, hash: Hash, number: nat, stateRoot: Hash)

  /// The storage values of `:code` and `:heappages`.
  datatype RuntimeParams = RuntimeParams(code: Option<Bytes>, heapPages: Option<Bytes>)

  // ------------------------------------------------------------------ runtime call errors

  datatype ProofVerifyError = TrieRootNotFound | OtherProofError

  datatype RuntimeCallError = CallError | StartError | InvalidRuntime | StorageRetrieval(error: ProofVerifyError)

  /// `RuntimeCallError::is_network_problem`: only a trie root the remote does not know is
  /// blamed on the network.
  function IsNetworkProblem(e: RuntimeCallError): (r: bool)
    ensures r <==> e == StorageRetrieval(TrieRootNotFound)
  {
    match e
    case CallError => false
    case StartError => false
    case InvalidRuntime => false
    case StorageRetrieval(TrieRootNotFound) => true
    case StorageRetrieval(_) => false
  }

  // ------------------------------------------------------------------ subscriber lists

  /// The subscribers whose channel accepted the notification, in their original order.
  function Retained<S>(subs: seq<S>, delivered: S -> bool): (r: seq<S>)
    ensures |r| <= |subs|
    ensures forall i | 0 <= i < |r| :: delivered(r[i])
  {
    if subs == [] then []
    else
      var rest := Retained(subs[1..], delivered);
      if delivered(subs[0]) then [subs[0]] + rest else rest
  }

  /// Each subscriber is kept as many times as it was listed if its send succeeded, and dropped
  /// otherwise.
  lemma {:induction false} RetainedCount<S>(subs: seq<S>, delivered: S -> bool, x: S)
    ensures multiset(Retained(subs, delivered))[x] == if delivered(x) then multiset(subs)[x] else 0
  {
    if subs != [] {
      RetainedCount(subs[1..], delivered, x);
      assert subs == [subs[0]] + subs[1..];
    }
  }

  /// `s` from its last element to its first.
  function InReverse<S>(s: seq<S>): (r: seq<S>)
    ensures |r| == |s|
    ensures forall i | 0 <= i < |s| :: r[i] == s[|s| - 1 - i]
  {
    if s == [] then [] else InReverse(s[1..]) + [s[0]]
  }

  /// `Vec::swap_remove`: the element at `i` is replaced by the last one.
  function SwapRemove<S>(s: seq<S>, i: nat): (r: seq<S>)
    requires i < |s|
    ensures |r| == |s| - 1
    ensures r[..i] == s[..i]
    ensures multiset(r[i..]) == multiset(s[i + 1..])
  {
    if i == |s| - 1 then
      s[..i]
    else
      var r := s[..i] + [s[|s| - 1]] + s[i + 1..|s| - 1];
      assert r[i..] == [s[|s| - 1]] + s[i + 1..|s| - 1];
      assert s[i + 1..] == s[i + 1..|s| - 1] + [s[|s| - 1]];
      r
  }

  /// `swap_remove` takes exactly the element at `i` out of the list.
  lemma SwapRemoveMultiset<S>(s: seq<S>, i: nat)
    requires i < |s|
    ensures multiset(SwapRemove(s, i)) == multiset(s) - multiset{s[i]}
  {
    var r := SwapRemove(s, i);
    assert r == r[..i] + r[i..];
    assert s == s[..i] + [s[i]] + s[i + 1..];
  }

  /// What a notification round promises: every subscriber of `before` was sent to once, last
  /// first, and `after` holds exactly those whose send succeeded, in some order.
  ghost predicate NotifiedRound<S>(before: seq<S>, after: seq<S>, attempted: seq<S>, delivered: S -> bool) {
    attempted == InReverse(before) && multiset(after) == multiset(Retained(before, delivered))
  }

  /// One step of the round: the subscriber at `index - 1` is taken out with `swap_remove` and
  /// pushed back if delivered; the untouched prefix stays, the processed suffix grows by it.
  lemma RoundStep<S>(subs: seq<S>, kept: seq<S>, index: nat, delivered: S -> bool)
    requires 0 < index <= |subs| && index <= |kept| && kept[..index] == subs[..index]
    requires multiset(kept[index..]) == multiset(Retained(subs[index..], delivered))
    ensures kept[index - 1] == subs[index - 1]
    ensures InReverse(subs[index - 1..]) == InReverse(subs[index..]) + [subs[index - 1]]
    ensures var removed := SwapRemove(kept, index - 1);
      var next := if delivered(subs[index - 1]) then removed + [subs[index - 1]] else removed;
      && index - 1 <= |next| && next[..index - 1] == subs[..index - 1]
      && multiset(next[index - 1..]) == multiset(Retained(subs[index - 1..], delivered))
  {
    var i := index - 1;
    var h := subs[i];
    PrefixAgree(kept, subs, index);
    assert subs[i..] == [h] + subs[index..];
    RetainedCons(h, subs[index..], delivered);
    InReverseCons(h, subs[index..]);
    var removed := SwapRemove(kept, i);
    if delivered(h) {
      PushSlices(removed, i, h);
    }
  }

  /// Two lists that agree up to `index` agree on its last element and on every shorter prefix.
  lemma PrefixAgree<S>(a: seq<S>, b: seq<S>, index: nat)
    requires 0 < index <= |a| && index <= |b| && a[..index] == b[..index]
    ensures a[index - 1] == b[index - 1] && a[..index - 1] == b[..index - 1]
  {
    assert a[index - 1] == a[..index][index - 1];
    assert b[index - 1] == b[..index][index - 1];
    assert a[..index - 1] == a[..index][..index - 1];
    assert b[..index - 1] == b[..index][..index - 1];
  }

  lemma RetainedCons<S>(h: S, t: seq<S>, delivered: S -> bool)
    ensures Retained([h] + t, delivered) == if delivered(h) then [h] + Retained(t, delivered) else Retained(t, delivered)
  {
    assert ([h] + t)[1..] == t;
  }

  lemma InReverseCons<S>(h: S, t: seq<S>)
    ensures InReverse([h] + t) == InReverse(t) + [h]
  {
    assert ([h] + t)[1..] == t;
  }

  /// Pushing onto a list leaves its prefixes and extends its suffixes.
  lemma PushSlices<S>(a: seq<S>, i: nat, h: S)
    requires i <= |a|
    ensures (a + [h])[..i] == a[..i] && (a + [h])[i..] == a[i..] + [h]
  {
  }

  /// The notification round of src/runtime_service.rs: each subscriber is taken out of the list
  /// with `swap_remove`, from the last index down, and pushed back if the send to it succeeded.
  method NotifyAndRetain<S>(subs: seq<S>, delivered: S -> bool) returns (kept: seq<S>, attempted: seq<S>)
    ensures NotifiedRound(subs, kept, attempted, delivered)
  {
    kept := subs;
    attempted := [];
    var index := |subs|;
    while index > 0
      invariant 0 <= index <= |subs| && index <= |kept|
      invariant kept[..index] == subs[..index]
      invariant multiset(kept[index..]) == multiset(Retained(subs[index..], delivered))
      invariant attempted == InReverse(subs[index..])
      decreases index
    {
      RoundStep(subs, kept, index, delivered);
      index := index - 1;
      var subscription := kept[index];
      kept := SwapRemove(kept, index);
      attempted := attempted + [subscription];
      if delivered(subscription) {
        kept := kept + [subscription];
      }
    }
    assert kept[0..] == kept && subs[0..] == subs;
  }

  // ------------------------------------------------------------------ the latest known runtime

  class LatestKnownRuntime {
    /// `HostVmPrototype::new` followed by `core_version`: compiles the code with the heap pages
    /// and reads the runtime's version, `None` if any step fails.
    const compile: (Bytes, Option<Bytes>) -> Option<CoreVersion>
    var runtime: RuntimeResult
    var runtimeCode: Option<Bytes>
    var heapPages: Option<Bytes>
    var runtimeBlockHash: Hash
    var runtimeBlockHeight: nat
    var runtimeBlockStateRoot: Hash
    var runtimeVersionSubscriptions: seq<VersionSender>
    var bestBlocksSubscriptions: seq<BestSender>
    var bestNearHeadOfChain: bool

    /// `runtime` is the runtime built from `runtimeCode` and `heapPages`, up to its metadata
    /// cache.
    ghost predicate Valid()
      reads this
    {
      SpecOf(runtime) == SpecOf(FromParams(compile, RuntimeParams(runtimeCode, heapPages)))
    }

    /// The state `RuntimeService::new` builds from the genesis block: the genesis runtime, with
    /// the metadata read from the genesis storage, no subscriber, and the genesis block as the
    /// block known to have this runtime. A genesis runtime that does not compile is a panic.
    constructor(
      compile: (Bytes, Option<Bytes>) -> Option<CoreVersion>,
      code: Option<Bytes>, heapPages: Option<Bytes>, metadata: Bytes,
      genesisBlockHash: Hash, genesisBlockStateRoot: Hash, syncNearHeadOfChain: bool)
      requires FromParams(compile, RuntimeParams(code, heapPages)).Compiled?
      ensures Valid()
      ensures this.compile == compile && runtimeCode == code && this.heapPages == heapPages
      ensures runtime == Compiled(FromParams(compile, RuntimeParams(code, heapPages)).runtime.(metadata := Some(metadata)))
      ensures runtimeBlockHash == genesisBlockHash && runtimeBlockHeight == 0 && runtimeBlockStateRoot == genesisBlockStateRoot
      ensures runtimeVersionSubscriptions == [] && bestBlocksSubscriptions == []
      ensures bestNearHeadOfChain == syncNearHeadOfChain
    {
      this.compile := compile;
      var genesis := FromParams(compile, RuntimeParams(code, heapPages)).runtime;
      runtime := Compiled(genesis.(metadata := Some(metadata)));
      runtimeCode := code;
      this.heapPages := heapPages;
      runtimeBlockHash := genesisBlockHash;
      runtimeBlockHeight := 0;
      runtimeBlockStateRoot := genesisBlockStateRoot;
      runtimeVersionSubscriptions := [];
      bestBlocksSubscriptions := [];
      bestNearHeadOfChain := syncNearHeadOfChain;
    }

    /// `subscribe_runtime_version`: the subscriber is appended, and the current version returned.
    method SubscribeRuntimeVersion(tx: VersionSender) returns (current: VersionResult)
      requires Valid()
      modifies this
      ensures Valid()
      ensures runtimeVersionSubscriptions == old(runtimeVersionSubscriptions) + [tx]
      ensures current == SpecOf(FromParams(compile, RuntimeParams(runtimeCode, heapPages)))
      ensures runtime == old(runtime) && runtimeCode == old(runtimeCode) && heapPages == old(heapPages)
      ensures bestBlocksSubscriptions == old(bestBlocksSubscriptions) && bestNearHeadOfChain == old(bestNearHeadOfChain)
      ensures runtimeBlockHash == old(runtimeBlockHash) && runtimeBlockHeight == old(runtimeBlockHeight)
      ensures runtimeBlockStateRoot == old(runtimeBlockStateRoot)
    {
      runtimeVersionSubscriptions := runtimeVersionSubscriptions + [tx];
      current := SpecOf(runtime);
    }

    /// `subscribe_best`: the subscriber is appended, and the SCALE-encoded header the sync
    /// service reports as its current best block, `syncBest`, is returned beside it.
    method SubscribeBest(tx: BestSender, syncBest: Bytes) returns (current: Bytes)
      requires Valid()
      modifies this
      ensures Valid()
      ensures current == syncBest
      ensures bestBlocksSubscriptions == old(bestBlocksSubscriptions) + [tx]
      ensures runtime == old(runtime) && runtimeCode == old(runtimeCode) && heapPages == old(heapPages)
      ensures runtimeVersionSubscriptions == old(runtimeVersionSubscriptions)
      ensures bestNearHeadOfChain == old(bestNearHeadOfChain)
      ensures runtimeBlockHash == old(runtimeBlockHash) && runtimeBlockHeight == old(runtimeBlockHeight)
      ensures runtimeBlockStateRoot == old(runtimeBlockStateRoot)
    {
      bestBlocksSubscriptions := bestBlocksSubscriptions + [tx];
      current := syncBest;
    }

    /// `runtime_version_of_block`. The block known to have the current runtime is answered from
    /// the cache, without a network query, and the answer is the version of the runtime built from
    /// the stored parameters. Any other block needs its header and its `:code` and `:heappages`
    /// from the network (`fetched`, `None` if any of these queries failed).
    method RuntimeVersionOfBlock(blockHash: Hash, fetched: Option<RuntimeParams>) returns (r: VersionResult, queriedNetwork: bool)
      requires Valid()
      ensures blockHash == runtimeBlockHash ==> !queriedNetwork && r == SpecOf(FromParams(compile, RuntimeParams(runtimeCode, heapPages)))
      ensures blockHash != runtimeBlockHash ==> queriedNetwork
      ensures blockHash != runtimeBlockHash && fetched.None? ==> r == VersionErr
      ensures blockHash != runtimeBlockHash && fetched.Some? ==> r == SpecOf(FromParams(compile, fetched.value))
    {
      if runtimeBlockHash == blockHash {
        return SpecOf(runtime), false;
      }
      queriedNetwork := true;
      match fetched {
        case None =>
          r := VersionErr;
        case Some(params) =>
          r := SpecOf(FromParams(compile, params));
      }
    }

    /// `is_near_head_of_chain_heuristic`: far whenever the sync service is far, otherwise what the
    /// sync service said at the latest best block update.
    function IsNearHeadOfChainHeuristic(syncNearHeadOfChain: bool): (near: bool)
      reads this
      ensures !syncNearHeadOfChain ==> !near
      ensures syncNearHeadOfChain ==> near == bestNearHeadOfChain
    {
      if !syncNearHeadOfChain then false else bestNearHeadOfChain
    }

    /// One iteration of the background task, from taking the lock on: the update for a new best
    /// block whose `:code` and `:heappages` query gave `query` (`None` if it failed).
    ///
    /// Best-block subscribers are always sent the block's SCALE-encoded header (`bestSent`) and
    /// `bestNearHeadOfChain` takes the sync service's answer. A failed query stops there.
    /// Otherwise the runtime block moves to the new best block; if the code and heap pages are
    /// those already stored, the runtime and its subscribers are kept. If not, they are stored, the runtime is rebuilt from them and every
    /// version subscriber is sent its version. `matchesBefore`/`matchesAfter` are the task's
    /// `runtime_matches_best_block` flag; `reportsUpgrade` is whether the upgrade is logged.
    method OnNewBestBlock(
      block: BestBlock, query: Option<RuntimeParams>, syncNearHeadOfChain: bool,
      bestDelivered: BestSender -> bool, versionDelivered: VersionSender -> bool, matchesBefore: bool)
      returns (matchesAfter: bool, bestAttempted: seq<BestSender>, bestSent: Bytes,
               versionAttempted: seq<VersionSender>, versionSent: Option<VersionResult>, reportsUpgrade: bool)
      requires Valid()
      modifies this
      ensures Valid()
      ensures NotifiedRound(old(bestBlocksSubscriptions), bestBlocksSubscriptions, bestAttempted, bestDelivered)
      ensures bestSent == block.scaleEncoded
      ensures bestNearHeadOfChain == syncNearHeadOfChain
      ensures query.None? ==>
        && runtime == old(runtime) && runtimeCode == old(runtimeCode) && heapPages == old(heapPages)
        && runtimeBlockHash == old(runtimeBlockHash) && runtimeBlockHeight == old(runtimeBlockHeight)
        && runtimeBlockStateRoot == old(runtimeBlockStateRoot)
        && runtimeVersionSubscriptions == old(runtimeVersionSubscriptions) && versionAttempted == []
        && versionSent.None? && matchesAfter == matchesBefore && !reportsUpgrade
      ensures query.Some? ==>
        runtimeBlockHash == block.hash && runtimeBlockHeight == block.number && runtimeBlockStateRoot == block.stateRoot
      ensures query.Some? ==> matchesAfter
      ensures query == Some(RuntimeParams(old(runtimeCode), old(heapPages))) ==>
        && runtime == old(runtime) && runtimeCode == old(runtimeCode) && heapPages == old(heapPages)
        && runtimeVersionSubscriptions == old(runtimeVersionSubscriptions) && versionAttempted == []
        && versionSent.None? && !reportsUpgrade
      ensures query.Some? && query != Some(RuntimeParams(old(runtimeCode), old(heapPages))) ==>
        && runtimeCode == query.value.code && heapPages == query.value.heapPages
        && runtime == FromParams(compile, query.value)
        && NotifiedRound(old(runtimeVersionSubscriptions), runtimeVersionSubscriptions, versionAttempted, versionDelivered)
        && versionSent == Some(SpecOf(runtime))
        && reportsUpgrade == matchesBefore
    {
      bestAttempted, bestSent := NotifyBest(block.scaleEncoded, syncNearHeadOfChain, bestDelivered);
      versionAttempted, versionSent, reportsUpgrade := [], None, false;
      matchesAfter := matchesBefore;

      if query.None? {
        return;
      }
      var newParams := query.value;

      runtimeBlockHash := block.hash;
      runtimeBlockHeight := block.number;
      runtimeBlockStateRoot := block.stateRoot;

      if newParams.code == runtimeCode && newParams.heapPages == heapPages {
        matchesAfter := true;
        return;
      }

      reportsUpgrade := matchesBefore;
      matchesAfter := true;
      var toSend;
      versionAttempted, toSend := UpgradeRuntime(newParams, versionDelivered);
      versionSent := Some(toSend);
    }

    /// The start of an iteration: every best-block subscriber is sent the SCALE-encoded header of
    /// the new best block, and the sync service's answer to whether it is near the head of the
    /// chain is stored.
    method NotifyBest(header: Bytes, syncNearHeadOfChain: bool, bestDelivered: BestSender -> bool)
      returns (bestAttempted: seq<BestSender>, sent: Bytes)
      requires Valid()
      modifies this
      ensures Valid()
      ensures NotifiedRound(old(bestBlocksSubscriptions), bestBlocksSubscriptions, bestAttempted, bestDelivered)
      ensures sent == header
      ensures bestNearHeadOfChain == syncNearHeadOfChain
      ensures runtime == old(runtime) && runtimeCode == old(runtimeCode) && heapPages == old(heapPages)
      ensures runtimeVersionSubscriptions == old(runtimeVersionSubscriptions)
      ensures runtimeBlockHash == old(runtimeBlockHash) && runtimeBlockHeight == old(runtimeBlockHeight)
      ensures runtimeBlockStateRoot == old(runtimeBlockStateRoot)
    {
      sent := header;
      bestBlocksSubscriptions, bestAttempted := NotifyAndRetain(bestBlocksSubscriptions, bestDelivered);
      bestNearHeadOfChain := syncNearHeadOfChain;
    }

    /// The runtime upgrade at the end of an iteration: the new code and heap pages are stored, the
    /// runtime is rebuilt from them and every version subscriber is sent the new version.
    method UpgradeRuntime(newParams: RuntimeParams, versionDelivered: VersionSender -> bool)
      returns (versionAttempted: seq<VersionSender>, sent: VersionResult)
      modifies this
      ensures Valid()
      ensures runtimeCode == newParams.code && heapPages == newParams.heapPages
      ensures runtime == FromParams(compile, newParams)
      ensures runtime.Compiled? ==> runtime.runtime.metadata == None
      ensures NotifiedRound(old(runtimeVersionSubscriptions), runtimeVersionSubscriptions, versionAttempted, versionDelivered)
      ensures sent == SpecOf(runtime)
      ensures bestBlocksSubscriptions == old(bestBlocksSubscriptions) && bestNearHeadOfChain == old(bestNearHeadOfChain)
      ensures runtimeBlockHash == old(runtimeBlockHash) && runtimeBlockHeight == old(runtimeBlockHeight)
      ensures runtimeBlockStateRoot == old(runtimeBlockStateRoot)
    {
      runtimeCode := newParams.code;
      heapPages := newParams.heapPages;
      runtime := FromParams(compile, RuntimeParams(runtimeCode, heapPages));
      sent := SpecOf(runtime);
      runtimeVersionSubscriptions, versionAttempted := NotifyAndRetain(runtimeVersionSubscriptions, versionDelivered);
    }
  }
}

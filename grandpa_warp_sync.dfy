/// The GrandPa warp sync state machine of src/sync/grandpa_warp_sync.rs: which source a warp sync
/// request goes to, what survives a failure, and where the machine goes when a source is removed.
///
/// The machine keeps its sources in a slab that the Rust code mutates in place; here that slab is
/// the field `sources` of the class `WarpSync`, a map from source id to source, with ids handed
/// out by the counter `nextId`. The typestate (`InProgressGrandpaWarpSync` and
/// `GrandpaWarpSync::Finished`) is the value `phase`. The foreign pieces (the fragment verifier,
/// virtual-machine compilation, the BABE epoch queries and the validity check of the resulting
/// chain information) are the functions of a `Host` value.
module GrandpaWarpSync {
  import opened Wrappers
  import ScaleCodec

  type Header(==)
  type Hash
  type Finality
  type Epoch
  type Fragment
  type FragmentError
  /// The state of the foreign fragment verifier (`warp_sync::Verifier`).
  type FragmentVerifier
  /// A compiled runtime (`HostVmPrototype`).
  type Vm
  /// A suspended BABE epoch query waiting for a storage value or for a next key.
  type StorageGetRequest
  type NextKeyRequest

  type Bytes = seq<ScaleCodec.Byte>

  datatype Consensus = Babe(slotsPerEpoch: nat) | OtherConsensus

  /// The verified chain information the warp sync starts from.
  datatype StartChainInformation =
    StartChainInformation(finalizedBlockHeader: Header, finality: Finality, consensus: Consensus)

  /// The chain information a successful warp sync builds: the verified header and finality with
  /// the BABE epochs read from the runtime.
  datatype ChainInformation = ChainInformation(
    finalizedBlockHeader: Header,
    finality: Finality,
    currentEpoch: Epoch,
    nextEpoch: Epoch,
    slotsPerEpoch: nat)

  datatype Source<T> = Source(userData: T, alreadyTried: bool)

  /// `previous_verifier_values`: the header and finality verified by an earlier, non-final set of
  /// fragments.
  datatype VerifierValues = VerifierValues(header: Header, finality: Finality)

  datatype WarpSyncResponse = WarpSyncResponse(fragments: seq<Fragment>, isFinished: bool)

  /// The three outcomes of `warp_sync::Verifier::next`.
  datatype VerifierStep =
    | NotFinished(next: FragmentVerifier)
    | Verified(header: Header, finality: Finality)
    | Rejected(error: FragmentError)

  datatype EpochResult = EpochFound(epoch: Epoch) | EpochFetchFailed

  datatype EpochToFetch = CurrentEpoch | NextEpoch

  /// `babe_fetch_epoch::Query`. A `StorageRoot` query holds the query it resumes into once given
  /// the state root of the verified header.
  datatype BabeQuery =
    | QueryFinished(result: EpochResult, vm: Vm)
    | QueryStorageGet(storageGet: StorageGetRequest)
    | QueryStorageRoot(resumed: BabeQuery)
    | QueryNextKey(nextKey: NextKeyRequest)

  /// The problems reported by the machine; the payloads of the Rust variants are not kept.
  datatype Error = MissingCode | InvalidHeapPages | BabeFetchEpoch | NewRuntime | InvalidChain

  /// The outcome of the foreign computations the machine depends on.
  datatype Host = Host(
    newVerifier: (Finality, seq<Fragment>, bool) -> FragmentVerifier,
    verifierNext: FragmentVerifier -> VerifierStep,
    heapPagesToValue: Option<Bytes> -> Option<nat>,
    newVm: (Bytes, nat) -> Option<Vm>,
    babeFetchEpoch: (Vm, EpochToFetch) -> BabeQuery,
    injectValue: (StorageGetRequest, Option<Bytes>) -> BabeQuery,
    injectKey: (NextKeyRequest, Option<Bytes>) -> BabeQuery,
    isValidChain: ChainInformation -> bool)

  /// `PostVerificationState` without its sources and starting point, which the class holds.
  datatype PostVerification = PostVerification(header: Header, finality: Finality, sourceId: nat)

  datatype Phase<T> =
    | WaitingForSources(previous: Option<VerifierValues>)
    | WarpSyncRequest(sourceId: nat, previous: Option<VerifierValues>)
    | Verifier(sourceId: nat, verifier: FragmentVerifier, finalSetOfFragments: bool, previous: Option<VerifierValues>)
    | VirtualMachineParamsGet(post: PostVerification)
    | StorageGet(storageGet: StorageGetRequest, fetchedCurrentEpoch: Option<Epoch>, post: PostVerification)
    | NextKey(nextKey: NextKeyRequest, fetchedCurrentEpoch: Option<Epoch>, post: PostVerification)
    | Finished(chainInformation: ChainInformation, runtime: Vm, drained: seq<T>)
  {
    /// The phases that are bound to one source: the request target, the source whose fragments
    /// are verified, or the source the verified fragments came from.
    predicate HasBoundSource() {
      WarpSyncRequest? || Verifier? || VirtualMachineParamsGet? || StorageGet? || NextKey?
    }

    function BoundSource(): nat
      requires HasBoundSource()
    {
      if WarpSyncRequest? || Verifier? then sourceId else post.sourceId
    }

    /// The phases before the fragments have been fully verified, which carry the previous
    /// verifier values.
    predicate IsPreVerification() {
      WaitingForSources? || WarpSyncRequest? || Verifier?
    }
  }

  // ------------------------------------------------------------------ next-source selection

  /// `id` is the lowest id of a source that has not been tried yet.
  ghost predicate IsFirstUntried<T>(sources: map<nat, Source<T>>, id: nat) {
    && id in sources
    && !sources[id].alreadyTried
    && forall j | j in sources && j < id :: sources[j].alreadyTried
  }

  /// What `warp_sync_request_from_next_source` promises: a request to the lowest-id untried
  /// source, or waiting for sources when every source has been tried, with the previous verifier
  /// values passed through.
  ghost predicate SelectsNextSource<T>(p: Phase<T>, sources: map<nat, Source<T>>, previous: Option<VerifierValues>) {
    if forall id | id in sources :: sources[id].alreadyTried then
      p == WaitingForSources(previous)
    else
      p.WarpSyncRequest? && IsFirstUntried(sources, p.sourceId) && p.previous == previous
  }

  /// The first untried source among the ids `from` up to `bound`, in ascending order as a slab
  /// iterates.
  function FirstUntried<T>(sources: map<nat, Source<T>>, from: nat, bound: nat): (r: Option<nat>)
    requires forall id | id in sources :: id < bound
    ensures r.Some? ==> from <= r.value && r.value in sources && !sources[r.value].alreadyTried
    ensures r.Some? ==> forall j | j in sources && from <= j < r.value :: sources[j].alreadyTried
    ensures r.None? ==> forall j | j in sources && from <= j :: sources[j].alreadyTried
    decreases bound - from
  {
    if from >= bound then None
    else if from in sources && !sources[from].alreadyTried then Some(from)
    else FirstUntried(sources, from + 1, bound)
  }

  /// `warp_sync_request_from_next_source`.
  function NextSourcePhase<T>(sources: map<nat, Source<T>>, bound: nat, previous: Option<VerifierValues>): (p: Phase<T>)
    requires forall id | id in sources :: id < bound
    ensures SelectsNextSource(p, sources, previous)
  {
    match FirstUntried(sources, 0, bound)
    case Some(id) => WarpSyncRequest(id, previous)
    case None => WaitingForSources(previous)
  }

  /// The selection is determined by the sources and the previous verifier values alone.
  lemma NextSourceUnique<T>(p: Phase<T>, q: Phase<T>, sources: map<nat, Source<T>>, previous: Option<VerifierValues>)
    requires SelectsNextSource(p, sources, previous) && SelectsNextSource(q, sources, previous)
    ensures p == q
  {
  }

  // ------------------------------------------------------------------ draining the sources

  /// The ids of `sources` from `from` up to `bound`, in ascending order.
  function SourceIds<T>(sources: map<nat, Source<T>>, from: nat, bound: nat): (ids: seq<nat>)
    ensures forall i | 0 <= i < |ids| :: ids[i] in sources && from <= ids[i] < bound
    ensures forall i, j | 0 <= i < j < |ids| :: ids[i] < ids[j]
    decreases bound - from
  {
    if from >= bound then []
    else
      var rest := SourceIds(sources, from + 1, bound);
      if from in sources then
        PrependAscending(from, rest);
        [from] + rest
      else rest
  }

  /// Every source from `from` up to `bound` is listed.
  lemma {:induction false} SourceIdsComplete<T>(sources: map<nat, Source<T>>, from: nat, bound: nat, id: nat)
    requires id in sources && from <= id < bound
    ensures id in SourceIds(sources, from, bound)
    decreases bound - from
  {
    if id > from {
      SourceIdsComplete(sources, from + 1, bound, id);
    }
  }

  /// Putting an id below all others in front of an ascending list keeps it ascending.
  lemma PrependAscending(x: nat, s: seq<nat>)
    requires forall i | 0 <= i < |s| :: x < s[i]
    requires forall i, j | 0 <= i < j < |s| :: s[i] < s[j]
    ensures forall i | 0 < i <= |s| :: ([x] + s)[i] == s[i - 1]
    ensures forall i, j | 0 <= i < j < |s| + 1 :: ([x] + s)[i] < ([x] + s)[j]
  {
    var r := [x] + s;
    assert forall i | 0 < i <= |s| :: r[i] == s[i - 1];
  }

  /// `sources.drain().map(|source| source.user_data).collect()`: the user data of every source,
  /// in ascending id order.
  function Drain<T>(sources: map<nat, Source<T>>, bound: nat): (r: seq<T>)
    ensures |r| == |SourceIds(sources, 0, bound)|
    ensures forall i | 0 <= i < |r| :: r[i] == sources[SourceIds(sources, 0, bound)[i]].userData
  {
    var ids := SourceIds(sources, 0, bound);
    seq(|ids|, i requires 0 <= i < |ids| => sources[ids[i]].userData)
  }

  /// Every source drained is the user data of one source, and each source is drained once.
  lemma DrainComplete<T>(sources: map<nat, Source<T>>, bound: nat)
    requires forall id | id in sources :: id < bound
    ensures forall id | id in sources :: exists i | 0 <= i < |Drain(sources, bound)| ::
      SourceIds(sources, 0, bound)[i] == id && Drain(sources, bound)[i] == sources[id].userData
    ensures forall i, j | 0 <= i < j < |Drain(sources, bound)| :: SourceIds(sources, 0, bound)[i] != SourceIds(sources, 0, bound)[j]
  {
    var ids := SourceIds(sources, 0, bound);
    forall id | id in sources
      ensures exists i | 0 <= i < |Drain(sources, bound)| :: ids[i] == id && Drain(sources, bound)[i] == sources[id].userData
    {
      SourceIdsComplete(sources, 0, bound, id);
      var i :| 0 <= i < |ids| && ids[i] == id;
      assert Drain(sources, bound)[i] == sources[id].userData;
    }
  }

  // ------------------------------------------------------------------ the BABE epoch queries

  /// Where `from_babe_fetch_epoch_query` leads once the foreign queries have answered.
  datatype Route =
    | RouteStorageGet(storageGet: StorageGetRequest, fetched: Option<Epoch>)
    | RouteNextKey(nextKey: NextKeyRequest, fetched: Option<Epoch>)
    | RouteFailed(error: Error)
    | RouteSucceeded(chainInformation: ChainInformation, runtime: Vm)

  /// Reference definition of the routing of `from_babe_fetch_epoch_query`. The current epoch is
  /// fetched first, then the next one; with both, the chain information is built from the verified
  /// header and finality and checked. A storage value or a next key suspends the query; a state
  /// root resumes it at once.
  function BabeRoute(start: StartChainInformation, host: Host, post: PostVerification, query: BabeQuery, fetched: Option<Epoch>): (r: Route)
    requires start.consensus.Babe?
    ensures r.RouteSucceeded? ==> r.chainInformation.finalizedBlockHeader == post.header
    ensures r.RouteSucceeded? ==> r.chainInformation.finality == post.finality
    ensures r.RouteSucceeded? ==> r.chainInformation.slotsPerEpoch == start.consensus.slotsPerEpoch
    ensures r.RouteSucceeded? ==> host.isValidChain(r.chainInformation)
    ensures r.RouteSucceeded? && fetched.Some? ==> r.chainInformation.currentEpoch == fetched.value
    ensures r.RouteFailed? ==> r.error == BabeFetchEpoch || r.error == InvalidChain
    decreases if fetched.None? then 1 else 0, query
  {
    match query
    case QueryFinished(EpochFound(epoch), vm) =>
      if fetched.Some? then
        var chainInformation := ChainInformation(post.header, post.finality, fetched.value, epoch, start.consensus.slotsPerEpoch);
        if host.isValidChain(chainInformation) then RouteSucceeded(chainInformation, vm)
        else RouteFailed(InvalidChain)
      else
        BabeRoute(start, host, post, host.babeFetchEpoch(vm, NextEpoch), Some(epoch))
    case QueryFinished(EpochFetchFailed, _) => RouteFailed(BabeFetchEpoch)
    case QueryStorageGet(storageGet) => RouteStorageGet(storageGet, fetched)
    case QueryStorageRoot(resumed) => BabeRoute(start, host, post, resumed, fetched)
    case QueryNextKey(nextKey) => RouteNextKey(nextKey, fetched)
  }

  /// A successful route built its chain information from the epoch fetched first as current
  /// epoch and the epoch fetched after it as next epoch.
  lemma {:induction false} BabeRouteEpochs(start: StartChainInformation, host: Host, post: PostVerification, vm: Vm, current: Epoch)
    requires start.consensus.Babe?
    requires host.babeFetchEpoch(vm, NextEpoch).QueryFinished? && host.babeFetchEpoch(vm, NextEpoch).result.EpochFound?
    ensures var next := host.babeFetchEpoch(vm, NextEpoch);
      var r := BabeRoute(start, host, post, QueryFinished(EpochFound(current), vm), None);
      var ci := ChainInformation(post.header, post.finality, current, next.result.epoch, start.consensus.slotsPerEpoch);
      (r.RouteSucceeded? <==> host.isValidChain(ci)) && (r.RouteSucceeded? ==> r == RouteSucceeded(ci, next.vm))
  {
  }

  // ------------------------------------------------------------------ the machine

  class WarpSync<T> {
    const start: StartChainInformation
    var sources: map<nat, Source<T>>
    var nextId: nat
    var phase: Phase<T>

    /// The machine's invariant: ids are below the allocator, the sources of `WaitingForSources`
    /// have all been tried, a finished machine has handed its sources out, and the current source
    /// of a phase is always a known source.
    ghost predicate Valid()
      reads this
    {
      && (forall id | id in sources :: id < nextId)
      && (phase.WaitingForSources? ==> forall id | id in sources :: sources[id].alreadyTried)
      && (phase.Finished? ==> sources == map[])
      && (phase.HasBoundSource() ==> phase.BoundSource() in sources)
    }

    /// `grandpa_warp_sync`: waiting for sources, with none and no previous verifier values.
    constructor(start: StartChainInformation)
      ensures Valid()
      ensures this.start == start && sources == map[] && phase == WaitingForSources(None)
    {
      this.start := start;
      sources := map[];
      nextId := 0;
      phase := WaitingForSources(None);
    }

    /// Moves to next-source selection, keeping the sources.
    method SelectNextSource(previous: Option<VerifierValues>)
      requires forall id | id in sources :: id < nextId
      modifies this
      ensures sources == old(sources) && nextId == old(nextId)
      ensures SelectsNextSource(phase, sources, previous)
      ensures Valid()
    {
      phase := NextSourcePhase(sources, nextId, previous);
    }

    /// `add_source`, in every phase of an unfinished machine: the source is inserted untried under
    /// a fresh id; `WaitingForSources` becomes a request to it, any other phase is kept.
    method AddSource(userData: T) returns (id: nat)
      requires Valid() && !phase.Finished?
      modifies this
      ensures Valid()
      ensures id !in old(sources) && sources == old(sources)[id := Source(userData, false)]
      ensures old(phase).WaitingForSources? ==> phase == WarpSyncRequest(id, old(phase).previous)
      ensures !old(phase).WaitingForSources? ==> phase == old(phase)
    {
      id := nextId;
      sources := sources[id := Source(userData, false)];
      nextId := nextId + 1;
      if phase.WaitingForSources? {
        phase := WarpSyncRequest(id, phase.previous);
      }
    }

    /// `remove_source`, in every phase of an unfinished machine. Removing the current source
    /// selects the next one, keeping the previous verifier values before verification has
    /// finished and dropping them after; removing another source keeps the phase.
    method RemoveSource(id: nat) returns (removed: T)
      requires Valid() && !phase.Finished? && id in sources
      modifies this
      ensures Valid()
      ensures removed == old(sources)[id].userData && sources == old(sources) - {id}
      ensures old(phase).HasBoundSource() && id == old(phase).BoundSource() ==>
        SelectsNextSource(phase, sources, if old(phase).IsPreVerification() then old(phase).previous else None)
      ensures !(old(phase).HasBoundSource() && id == old(phase).BoundSource()) ==> phase == old(phase)
    {
      removed := sources[id].userData;
      sources := sources - {id};
      if phase.HasBoundSource() && id == phase.BoundSource() {
        if phase.IsPreVerification() {
          SelectNextSource(phase.previous);
        } else {
          SelectNextSource(None);
        }
      }
    }

    /// `WarpSyncRequest::current_source`.
    function CurrentSource(): (r: (nat, T))
      reads this
      requires Valid() && phase.WarpSyncRequest?
      ensures r.0 == phase.sourceId && r.0 in sources && r.1 == sources[r.0].userData
    {
      (phase.sourceId, sources[phase.sourceId].userData)
    }

    /// `WarpSyncRequest::start_block_hash`: the hash of the previously verified header if there is
    /// one, of the starting finalized header otherwise.
    function StartBlockHash(hash: Header -> Hash): (h: Hash)
      reads this
      requires phase.WarpSyncRequest?
      ensures phase.previous.Some? ==> h == hash(phase.previous.value.header)
      ensures phase.previous.None? ==> h == hash(start.finalizedBlockHeader)
    {
      match phase.previous
      case Some(values) => hash(values.header)
      case None => hash(start.finalizedBlockHeader)
    }

    /// `WarpSyncRequest::handle_response`. The current source is marked as tried. Without a
    /// response the next source is selected with the previous verifier values kept; with one,
    /// the fragments are handed to a verifier bound to the same source, starting from the
    /// previously verified finality or else the starting one.
    method HandleResponse(response: Option<WarpSyncResponse>, host: Host)
      requires Valid() && phase.WarpSyncRequest?
      modifies this
      ensures Valid()
      ensures var current := old(phase).sourceId;
        sources == old(sources)[current := old(sources)[current].(alreadyTried := true)]
      ensures response.None? ==> SelectsNextSource(phase, sources, old(phase).previous)
      ensures response.None? && phase.WarpSyncRequest? ==> phase.sourceId != old(phase).sourceId
      ensures response.Some? ==>
        var finality := if old(phase).previous.Some? then old(phase).previous.value.finality else start.finality;
        phase == Verifier(
          old(phase).sourceId,
          host.newVerifier(finality, response.value.fragments, response.value.isFinished),
          response.value.isFinished,
          old(phase).previous)
    {
      var current := phase.sourceId;
      sources := sources[current := sources[current].(alreadyTried := true)];
      match response {
        case Some(r) =>
          var finality := match phase.previous
            case Some(values) => values.finality
            case None => start.finality;
          phase := Verifier(current, host.newVerifier(finality, r.fragments, r.isFinished), r.isFinished, phase.previous);
        case None =>
          SelectNextSource(phase.previous);
      }
    }

    /// `Verifier::next`. A step that is not finished keeps everything; a verified final set of
    /// fragments moves to fetching the runtime parameters from the same source; a verified
    /// intermediate set asks the same source for more, from the newly verified values; a
    /// rejected fragment selects the next source, keeping the earlier verified values.
    method VerifierNext(host: Host) returns (result: Option<FragmentError>)
      requires Valid() && phase.Verifier?
      modifies this
      ensures Valid() && sources == old(sources)
      ensures var step := host.verifierNext(old(phase).verifier);
        && (step.NotFinished? ==> phase == old(phase).(verifier := step.next) && result.None?)
        && (step.Verified? && old(phase).finalSetOfFragments ==>
              phase == VirtualMachineParamsGet(PostVerification(step.header, step.finality, old(phase).sourceId)) && result.None?)
        && (step.Verified? && !old(phase).finalSetOfFragments ==>
              phase == WarpSyncRequest(old(phase).sourceId, Some(VerifierValues(step.header, step.finality))) && result.None?)
        && (step.Rejected? ==> SelectsNextSource(phase, sources, old(phase).previous) && result == Some(step.error))
    {
      match host.verifierNext(phase.verifier) {
        case NotFinished(next) =>
          phase := phase.(verifier := next);
          result := None;
        case Verified(header, finality) =>
          if phase.finalSetOfFragments {
            phase := VirtualMachineParamsGet(PostVerification(header, finality, phase.sourceId));
          } else {
            phase := WarpSyncRequest(phase.sourceId, Some(VerifierValues(header, finality)));
          }
          result := None;
        case Rejected(error) =>
          SelectNextSource(phase.previous);
          result := Some(error);
      }
    }

    /// The state `from_babe_fetch_epoch_query` leaves behind for a given route: a suspended query
    /// keeps the sources, a failure selects the next source without previous verifier values, a
    /// success hands out every source.
    ghost predicate Routed(route: Route, post: PostVerification, oldSources: map<nat, Source<T>>, oldNextId: nat, err: Option<Error>)
      reads this
    {
      match route
      case RouteStorageGet(storageGet, fetched) =>
        sources == oldSources && phase == StorageGet(storageGet, fetched, post) && err.None?
      case RouteNextKey(nextKey, fetched) =>
        sources == oldSources && phase == NextKey(nextKey, fetched, post) && err.None?
      case RouteFailed(error) =>
        sources == oldSources && SelectsNextSource(phase, sources, None) && err == Some(error)
      case RouteSucceeded(chainInformation, runtime) =>
        sources == map[] && phase == Finished(chainInformation, runtime, Drain(oldSources, oldNextId)) && err.None?
    }

    /// The successful end of the warp sync: every source is handed out, in id order.
    method Finish(chainInformation: ChainInformation, runtime: Vm)
      requires Valid()
      modifies this
      ensures Valid() && nextId == old(nextId) && sources == map[]
      ensures phase == Finished(chainInformation, runtime, Drain(old(sources), old(nextId)))
    {
      var drained := Drain(sources, nextId);
      sources := map[];
      phase := Finished(chainInformation, runtime, drained);
    }

    /// `from_babe_fetch_epoch_query`: answers the query from the host until it needs a storage
    /// value or a next key, fails, or yields both epochs.
    method FromBabeFetchEpochQuery(query: BabeQuery, fetched: Option<Epoch>, post: PostVerification, host: Host)
      returns (err: Option<Error>)
      requires Valid() && start.consensus.Babe? && post.sourceId in sources
      modifies this
      ensures Valid() && nextId == old(nextId)
      ensures Routed(BabeRoute(start, host, post, query, fetched), post, old(sources), old(nextId), err)
    {
      var q, e := query, fetched;
      while true
        invariant BabeRoute(start, host, post, q, e) == BabeRoute(start, host, post, query, fetched)
        invariant sources == old(sources) && nextId == old(nextId) && phase == old(phase)
        decreases if e.None? then 1 else 0, q
      {
        match q {
          case QueryFinished(EpochFound(epoch), vm) =>
            if e.Some? {
              var slotsPerEpoch := start.consensus.slotsPerEpoch;
              var chainInformation := ChainInformation(post.header, post.finality, e.value, epoch, slotsPerEpoch);
              if host.isValidChain(chainInformation) {
                Finish(chainInformation, vm);
                return None;
              }
              SelectNextSource(None);
              return Some(InvalidChain);
            }
            q, e := host.babeFetchEpoch(vm, NextEpoch), Some(epoch);
          case QueryFinished(EpochFetchFailed, _) =>
            SelectNextSource(None);
            return Some(BabeFetchEpoch);
          case QueryStorageGet(storageGet) =>
            phase := StorageGet(storageGet, e, post);
            return None;
          case QueryStorageRoot(resumed) =>
            q := resumed;
          case QueryNextKey(nextKey) =>
            phase := NextKey(nextKey, e, post);
            return None;
        }
      }
    }

    /// `VirtualMachineParamsGet::set_virtual_machine_params`. Missing code, undecodable heap pages
    /// and a runtime that does not compile select the next source without previous verifier
    /// values; otherwise the current BABE epoch is fetched from the new runtime.
    method SetVirtualMachineParams(code: Option<Bytes>, heapPages: Option<Bytes>, host: Host) returns (err: Option<Error>)
      requires Valid() && phase.VirtualMachineParamsGet? && start.consensus.Babe?
      modifies this
      ensures Valid() && nextId == old(nextId)
      ensures code.None? ==> sources == old(sources) && SelectsNextSource(phase, sources, None) && err == Some(MissingCode)
      ensures code.Some? && host.heapPagesToValue(heapPages).None? ==>
        sources == old(sources) && SelectsNextSource(phase, sources, None) && err == Some(InvalidHeapPages)
      ensures code.Some? && host.heapPagesToValue(heapPages).Some? ==>
        var vm := host.newVm(code.value, host.heapPagesToValue(heapPages).value);
        && (vm.None? ==> sources == old(sources) && SelectsNextSource(phase, sources, None) && err == Some(NewRuntime))
        && (vm.Some? ==> Routed(
              BabeRoute(start, host, old(phase).post, host.babeFetchEpoch(vm.value, CurrentEpoch), None),
              old(phase).post, old(sources), old(nextId), err))
    {
      if code.None? {
        SelectNextSource(None);
        return Some(MissingCode);
      }
      var pages := host.heapPagesToValue(heapPages);
      if pages.None? {
        SelectNextSource(None);
        return Some(InvalidHeapPages);
      }
      match host.newVm(code.value, pages.value) {
        case Some(runtime) =>
          err := FromBabeFetchEpochQuery(host.babeFetchEpoch(runtime, CurrentEpoch), None, phase.post, host);
        case None =>
          SelectNextSource(None);
          err := Some(NewRuntime);
      }
    }

    /// `StorageGet::inject_value`: the value resumes the suspended query.
    method InjectValue(value: Option<Bytes>, host: Host) returns (err: Option<Error>)
      requires Valid() && phase.StorageGet? && start.consensus.Babe?
      modifies this
      ensures Valid() && nextId == old(nextId)
      ensures Routed(
        BabeRoute(start, host, old(phase).post, host.injectValue(old(phase).storageGet, value), old(phase).fetchedCurrentEpoch),
        old(phase).post, old(sources), old(nextId), err)
    {
      err := FromBabeFetchEpochQuery(host.injectValue(phase.storageGet, value), phase.fetchedCurrentEpoch, phase.post, host);
    }

    /// `NextKey::inject_key`: the key resumes the suspended query.
    method InjectKey(key: Option<Bytes>, host: Host) returns (err: Option<Error>)
      requires Valid() && phase.NextKey? && start.consensus.Babe?
      modifies this
      ensures Valid() && nextId == old(nextId)
      ensures Routed(
        BabeRoute(start, host, old(phase).post, host.injectKey(old(phase).nextKey, key), old(phase).fetchedCurrentEpoch),
        old(phase).post, old(sources), old(nextId), err)
    {
      err := FromBabeFetchEpochQuery(host.injectKey(phase.nextKey, key), phase.fetchedCurrentEpoch, phase.post, host);
    }
  }
}

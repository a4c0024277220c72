# smoldot: SCALE compact codec, GrandPa warp sync and runtime service bookkeeping

A Dafny model of three pieces of the smoldot light client.

- **`scale_codec.dfy`** (module `ScaleCodec`) covers `src/util.rs`. It holds the SCALE "compact"
  variable-length integer codec (`nom_scale_compact_usize` and `encode_scale_compact_usize`) and
  the decoders built on it for `bool`, `Option`, length-prefixed byte vectors and strings.
  `usize` is fixed at 64 bits. Bytes are integers in `0..256`.
  - `DecodeCompact` and `EncodeCompact` are reference definitions: the value is the
    little-endian number formed by the consumed bytes.
  - The methods `NomScaleCompactUsize` and `EncodeScaleCompactUsize` follow the Rust branch by
    branch, loops included. Each is proved equal to its reference definition.
  - The round trip is proved for every 64-bit value followed by any bytes.
- **`grandpa_warp_sync.dfy`** (module `GrandpaWarpSync`) covers the source/phase state machine of
  `src/sync/grandpa_warp_sync.rs`. The class `WarpSync<T>` holds:
  - the slab of sources, as a map from id to source plus a fresh-id counter;
  - the current phase, as a datatype with one variant per typestate
    (`WaitingForSources`, `WarpSyncRequest`, `Verifier`, `VirtualMachineParamsGet`,
    `StorageGet`, `NextKey`, `Finished`).

  The foreign pieces are functions of a `Host` value that the operations receive:
  - the fragment verifier;
  - heap-pages decoding and runtime compilation;
  - the BABE epoch queries;
  - the chain-information validity check.
- **`runtime_service.dfy`** (module `RuntimeService`) covers the bookkeeping of
  `bin/wasm-node/rust/src/runtime_service.rs`. The class `LatestKnownRuntime` is updated once per
  new best block. Its subscriber lists are rebuilt by the `swap_remove`/`push` rounds of the
  source.
  - Compiling a runtime and reading its version (`HostVmPrototype::new` and `core_version`) is an
    uninterpreted function `compile` held by the state. `FromParams` models
    `SuccessfulRuntime::from_params` around it: missing code is an error, and a fresh runtime
    has no metadata.
  - Channel sends are a per-subscriber predicate.
  - The storage query result and the sync service's heuristic and current best header are
    inputs.
- **`wrappers.dfy`** (module `Wrappers`) holds `Option`.

## Model

| member | source | states |
|---|---|---|
| ScaleCodec.DecodeCompact | src/util.rs:75-168 | Decoding succeeds exactly when the input is non-empty, holds the whole encoding announced by the mode bits, and, in mode 0b11, has a nonzero highest byte and at most 8 value bytes. A success consumes exactly that many bytes. Its value is below 2^6, 2^14 or 2^30 in modes 0b00, 0b01 and 0b10, and at least 2^(8(n-1)) for n value bytes in mode 0b11. |
| ScaleCodec.OneByteDecode | src/util.rs:85-89 | Mode 0b00 yields `b0 >> 2` and consumes one byte. |
| ScaleCodec.TwoByteDecode | src/util.rs:90-102 | Mode 0b01 with at least two bytes yields `(b1 << 6) \| (b0 >> 2)` and consumes two bytes. |
| ScaleCodec.FourByteDecode | src/util.rs:103-126 | Mode 0b10 with at least four bytes yields `(b3 << 22) \| (b2 << 14) \| (b1 << 6) \| (b0 >> 2)` and consumes four bytes. |
| ScaleCodec.LongDecode | src/util.rs:127-165 | In mode 0b11 with enough bytes and a nonzero highest byte: at most 8 value bytes decode to their little-endian number, and the `num_bytes + 1` header and value bytes are consumed. More than 8 value bytes are rejected, because their number is at least 2^64. |
| ScaleCodec.ShortFormBound | src/util.rs:85-126 | The values of the 1-, 2- and 4-byte forms fit in 6, 14 and 30 bits. |
| ScaleCodec.LongFormBound | src/util.rs:127-165 | Canonical value bytes, at most 8 of them, form a number below 2^64 whose highest byte is set. |
| ScaleCodec.NomScaleCompactUsize | src/util.rs:75-168 | The decoder, branch by branch and with the mode-0b11 accumulation loop, returns exactly `DecodeCompact`. Its overflow check is the checked product `b * 2^shift < 2^64`. |
| ScaleCodec.CheckedShiftedByteBound | src/util.rs:147-157 | Up to a shift of 56 the checked product of a byte never overflows, so `None` is reachable only from the ninth value byte on. |
| ScaleCodec.AccumulateStep | src/util.rs:148-161 | ORing an accepted shifted byte into the accumulator appends that byte to its little-endian digits and stays below 2^64. |
| ScaleCodec.AppendFits | src/util.rs:148-157 | A byte placed above the digits of a number below 2^64 keeps it below 2^64 when the shifted byte fits. |
| ScaleCodec.LittleEndianAppend | src/util.rs:145-162 | Appending a most-significant byte adds `b * 2^(8·len)` to the little-endian value. |
| ScaleCodec.LittleEndianBound | src/util.rs:145-162 | `n` little-endian bytes are below 2^(8n). |
| ScaleCodec.LittleEndianLowerBound | src/util.rs:137-143 | `n` bytes with a nonzero highest byte are at least 2^(8(n-1)). |
| ScaleCodec.EncodeCompact | src/util.rs:171-196 | The encoding has 1 to 9 bytes. It has 1, 2 or 4 bytes below 2^6, 2^14 and 2^30, and from 2^30 on it has at least 5 bytes with mode bits 0b11. |
| ScaleCodec.LongFormDigits | src/util.rs:186-193 | A value from 2^30 up to 2^64 has 4 to 8 minimal little-endian digits, so the header holds 0 to 4 and the buffer of 9 never overflows. |
| ScaleCodec.MinimalLEValue | src/util.rs:187-191 | The digits pushed by the `value >>= 8` loop are the little-endian digits of the value, and the last one is nonzero. |
| ScaleCodec.MinimalLELength | src/util.rs:187-191 | The loop pushes at most `n` digits exactly when the value is below 2^(8n). |
| ScaleCodec.FixedLERoundTrip | src/util.rs:176-185 | The `n` low bytes of a number below 2^(8n) read back as that number. |
| ScaleCodec.FixedLEMode | src/util.rs:177-182 | The first byte of a short form carries its mode in its two low bits. |
| ScaleCodec.OneByteForm | src/util.rs:176-177 | The 1-byte form is `[value << 2]`. |
| ScaleCodec.TwoByteForm | src/util.rs:178-180 | The 2-byte form is the low six bits of the value above mode 0b01, then bits 6 to 13. |
| ScaleCodec.FourByteForm | src/util.rs:181-185 | The 4-byte form is the low six bits above mode 0b10, then bits 6-13, 14-21 and 22-29. |
| ScaleCodec.EncodeScaleCompactUsize | src/util.rs:171-196 | The encoder, with its pushes, its `value >>= 8` loop and its late header write, returns exactly `EncodeCompact`. |
| ScaleCodec.EncodeLongForm | src/util.rs:186-192 | From 2^30 on, the push loop never exceeds the buffer's capacity of 9 and returns exactly `EncodeCompact`. |
| ScaleCodec.CompactRoundTrip | src/util.rs:75-196 | For every 64-bit `v` and any bytes `rest`, decoding `encode(v) ++ rest` yields `v` and leaves exactly `rest`. |
| ScaleCodec.ShortRoundTrip | src/util.rs:85-126 | The round trip for values below 2^30. |
| ScaleCodec.FixedFormRoundTrip | src/util.rs:85-126 | Decoding the `n` bytes of `4v + mode` in modes 0b00, 0b01 and 0b10, followed by any bytes, yields `v`. |
| ScaleCodec.ShortFormDecode | src/util.rs:85-126 | A short form followed by any bytes decodes to its little-endian value without the mode bits, and leaves those bytes. |
| ScaleCodec.LongRoundTrip | src/util.rs:127-165 | The round trip for values from 2^30 on: the header announces exactly the minimal digits, and the highest one is nonzero. |
| ScaleCodec.DecodeCompactAsWritten | src/util.rs:145-162 | The mode-0b11 loop as written, where the shift amount is taken modulo 64 and terms are ORed in. Its contract is carried by the lemmas below. |
| ScaleCodec.BitOrDisjoint | src/util.rs:148 | ORing a multiple of 2^k into a number below 2^k is the same as adding it. |
| ScaleCodec.AccumulateAgrees | src/util.rs:145-162 | While the shift stays below 64, the as-written loop builds the little-endian value of the bytes read so far. |
| ScaleCodec.AsWrittenAgrees | src/util.rs:127-165 | When the header announces at most eight value bytes, the as-written decoder gives the same result as the corrected one, on every input. |
| ScaleCodec.AccumulateZerosAsWritten | src/util.rs:145-162 | Zero value bytes leave the as-written accumulator unchanged and advance the shift by 8 each. |
| ScaleCodec.BitOrZero | src/util.rs:148 | ORing zero into the accumulator leaves it unchanged. |
| ScaleCodec.OversizedCompactValue | src/util.rs:127-165 | The value bytes of `[0x17, 0 ×8, 1]` encode 2^64. |
| ScaleCodec.OversizedCompactRejected | src/util.rs:127-165 | The corrected decoder rejects that input. |
| ScaleCodec.OversizedAccumulate | src/util.rs:145-162 | As written, the loop over eight zero value bytes followed by the byte 1 yields 1. |
| ScaleCodec.OversizedCompactAsWritten | src/util.rs:145-162 | As written, `[0x17, 0 ×8, 1]` decodes to 1 with nothing left, where the corrected decoder returns an error. |
| ScaleCodec.NomBoolDecode | src/util.rs:62-69 | Byte 0 is `false` and byte 1 is `true`, each consuming one byte. Anything else, and the empty input, is an error. |
| ScaleCodec.BoolRoundTrip | src/util.rs:62-69 | `nom_bool_decode(b ++ rest)` returns `(rest, v)` exactly when `b` is the encoding of `v`. |
| ScaleCodec.NomOptionDecode | src/util.rs:29-39 | Succeeds exactly when the input starts with tag 0, or with tag 1 followed by a successful inner decode. Tag 0 is `None` after one byte. Tag 1 is `Some` of the inner value, leaving what the inner decoder leaves. |
| ScaleCodec.OptionRoundTrip | src/util.rs:29-39 | For an inner decoder that inverts its encoder, the option decoder inverts the option encoder. |
| ScaleCodec.NomBytesDecode | src/util.rs:42-46 | Succeeds exactly when the compact length prefix decodes and that many bytes follow. It returns exactly those bytes and the rest. |
| ScaleCodec.BytesRoundTrip | src/util.rs:42-46 | Decoding a length-prefixed byte vector followed by any bytes yields the vector and the rest. |
| ScaleCodec.NomStringDecode | src/util.rs:49-59 | A byte-vector decode whose bytes must also pass the UTF-8 check. |
| ScaleCodec.StringRoundTrip | src/util.rs:49-59 | A valid UTF-8 string round-trips through its length-prefixed encoding. |
| GrandpaWarpSync.FirstUntried | src/sync/grandpa_warp_sync.rs:372-396 | The result is the lowest id from `from` on whose source is untried, or none when every source from there has been tried. |
| GrandpaWarpSync.NextSourcePhase | src/sync/grandpa_warp_sync.rs:372-396 | `warp_sync_request_from_next_source` requests the lowest-id untried source, or waits for sources when all have been tried. The previous verifier values pass through. |
| GrandpaWarpSync.NextSourceUnique | src/sync/grandpa_warp_sync.rs:372-396 | The selected phase is determined by the sources and the previous values alone. |
| GrandpaWarpSync.SourceIds | src/sync/grandpa_warp_sync.rs:216-220 | The ids of the slab in strictly ascending order, each one a key of the slab. |
| GrandpaWarpSync.SourceIdsComplete | src/sync/grandpa_warp_sync.rs:216-220 | Every key of the slab in range is listed. |
| GrandpaWarpSync.Drain | src/sync/grandpa_warp_sync.rs:216-220 | The drained user data are those of the listed ids, in ascending id order. |
| GrandpaWarpSync.DrainComplete | src/sync/grandpa_warp_sync.rs:212-223 | Success hands out the user data of every source, each exactly once. |
| GrandpaWarpSync.BabeRoute | src/sync/grandpa_warp_sync.rs:160-289 | A success builds the chain information from the verified header and finality, the starting `slots_per_epoch` and the epoch fetched first, and that information passed the validity check. A failure is a BABE fetch error or an invalid chain. |
| GrandpaWarpSync.BabeRouteEpochs | src/sync/grandpa_warp_sync.rs:225-242 | A current epoch followed by a found next epoch leads to success exactly when the chain information built from the two is valid, and then uses the runtime of the second query. |
| GrandpaWarpSync.WarpSync.constructor | src/sync/grandpa_warp_sync.rs:102-110 | A fresh machine is waiting for sources, with no source and no previous verifier values. |
| GrandpaWarpSync.WarpSync.SelectNextSource | src/sync/grandpa_warp_sync.rs:372-396 | The phase becomes the next-source selection and the sources are kept. |
| GrandpaWarpSync.WarpSync.AddSource | src/sync/grandpa_warp_sync.rs:927-939 | The source is inserted untried under a fresh id and the other sources are unchanged. `WaitingForSources` becomes a request to the new source with the same previous values. Any other phase is kept (lines 481-486, 540-545, 577-582, 734-739, 833-837). |
| GrandpaWarpSync.WarpSync.RemoveSource | src/sync/grandpa_warp_sync.rs:747-762 | The removed user data is returned and only that source leaves the slab. Removing the current source selects the next one: before verification ends (`WarpSyncRequest`, `Verifier`, lines 590-605) the previous values are kept, after it (lines 677-697) they are dropped. Any other removal keeps the phase, as in `WaitingForSources` (lines 947-951). |
| GrandpaWarpSync.WarpSync.CurrentSource | src/sync/grandpa_warp_sync.rs:715-718 | The id of the request's target, a key of the slab, with its user data. |
| GrandpaWarpSync.WarpSync.StartBlockHash | src/sync/grandpa_warp_sync.rs:721-731 | The hash of the previously verified header if there is one, of the starting finalized header otherwise. |
| GrandpaWarpSync.WarpSync.HandleResponse | src/sync/grandpa_warp_sync.rs:765-805 | The current source is always marked as tried. Without a response the next source is selected with the previous values kept, and it is another source. With one, a verifier bound to the same source starts from the previous finality (or the starting one), with `final_set_of_fragments = is_finished`. |
| GrandpaWarpSync.WarpSync.VerifierNext | src/sync/grandpa_warp_sync.rs:608-661 | NotFinished keeps everything. Success on the final set moves to fetching the runtime parameters from the same source. Success on an intermediate set requests more from the same source with the new values. A rejected fragment selects the next source, keeps the earlier values and returns the error. The sources are unchanged. |
| GrandpaWarpSync.WarpSync.Finish | src/sync/grandpa_warp_sync.rs:212-223 | The slab is emptied and the machine finishes with every source's user data. |
| GrandpaWarpSync.WarpSync.FromBabeFetchEpochQuery | src/sync/grandpa_warp_sync.rs:160-289 | The loop ends in the state `BabeRoute` prescribes. A suspended query keeps the sources. A failure selects the next source without previous values. A success hands out every source. |
| GrandpaWarpSync.WarpSync.SetVirtualMachineParams | src/sync/grandpa_warp_sync.rs:842-914 | Missing code, undecodable heap pages and a runtime that does not compile each select the next source without previous values and report their error. Otherwise the current epoch is fetched from the new runtime and routed. |
| GrandpaWarpSync.WarpSync.InjectValue | src/sync/grandpa_warp_sync.rs:496-505 | The storage value resumes the suspended query, with the current epoch fetched so far. |
| GrandpaWarpSync.WarpSync.InjectKey | src/sync/grandpa_warp_sync.rs:553-562 | The next key resumes the suspended query, with the current epoch fetched so far. |
| RuntimeService.FromParams | bin/wasm-node/rust/src/runtime_service.rs:646-675 | Missing `:code` is an error. Otherwise the runtime is valid exactly when compiling and reading its version succeed, and a valid one has no metadata cached. |
| RuntimeService.SpecOf | bin/wasm-node/rust/src/runtime_service.rs:195-199 | The version reported for a runtime is its spec, or an error exactly when the runtime is invalid. |
| RuntimeService.IsNetworkProblem | bin/wasm-node/rust/src/runtime_service.rs:554-563 | True exactly for `StorageRetrieval(TrieRootNotFound)`. |
| RuntimeService.Retained | bin/wasm-node/rust/src/runtime_service.rs:763-776 | At most as many subscribers as before survive, and every survivor's send succeeded. |
| RuntimeService.RetainedCount | bin/wasm-node/rust/src/runtime_service.rs:763-776 | A subscriber survives as many times as it was listed if its send succeeded, and not at all otherwise. |
| RuntimeService.InReverse | bin/wasm-node/rust/src/runtime_service.rs:763 | Element `i` of the result is element `len-1-i` of the input. |
| RuntimeService.SwapRemove | bin/wasm-node/rust/src/runtime_service.rs:764-766 | `swap_remove(i)` shortens the list by one, keeps the prefix before `i`, and keeps the elements after `i` up to order. |
| RuntimeService.SwapRemoveMultiset | bin/wasm-node/rust/src/runtime_service.rs:764-766 | `swap_remove(i)` takes exactly the element at `i` out of the list. |
| RuntimeService.RoundStep | bin/wasm-node/rust/src/runtime_service.rs:763-776 | One iteration of the downward loop keeps the untouched prefix and extends the processed suffix by the current subscriber when its send succeeds. |
| RuntimeService.NotifyAndRetain | bin/wasm-node/rust/src/runtime_service.rs:763-776 | Every subscriber is sent to exactly once, last index first. Afterwards the list holds exactly those whose send succeeded, each as often as before, in some order. |
| RuntimeService.LatestKnownRuntime.constructor | bin/wasm-node/rust/src/runtime_service.rs:105-164 | The genesis runtime is built from the genesis `:code` and `:heappages` with its metadata filled. It has no subscribers, the genesis block is the runtime block at height 0, and the sync service's heuristic is stored. |
| RuntimeService.LatestKnownRuntime.SubscribeRuntimeVersion | bin/wasm-node/rust/src/runtime_service.rs:186-201 | The sender is appended and the current version returned. Nothing else changes. |
| RuntimeService.LatestKnownRuntime.SubscribeBest | bin/wasm-node/rust/src/runtime_service.rs:294-303 | The sender is appended, and the sync service's current best header is returned beside it. Nothing else changes. |
| RuntimeService.LatestKnownRuntime.RuntimeVersionOfBlock | bin/wasm-node/rust/src/runtime_service.rs:205-271 | The runtime block's hash is answered from the cache without a network query, with the version of the stored runtime. Any other block queries the network. It fails when a query fails, and otherwise answers the version built from the fetched parameters. |
| RuntimeService.LatestKnownRuntime.IsNearHeadOfChainHeuristic | bin/wasm-node/rust/src/runtime_service.rs:510-530 | False whenever the sync service is far. Otherwise the flag stored at the latest best-block update. |
| RuntimeService.LatestKnownRuntime.OnNewBestBlock | bin/wasm-node/rust/src/runtime_service.rs:753-851 | Best-block subscribers are always sent the new block's SCALE-encoded header, and the near-head flag is updated. A failed query changes nothing else. A successful one moves the runtime block to the new best block. Unchanged code and heap pages keep the runtime and its subscribers. Changed ones are stored, the runtime is rebuilt from exactly them, and every version subscriber is sent the new version. An upgrade is reported only when the runtime was expected to match the best block. |
| RuntimeService.LatestKnownRuntime.NotifyBest | bin/wasm-node/rust/src/runtime_service.rs:763-783 | Sends the given header to the best-block subscribers, keeps those reached and stores the near-head flag. The runtime and its block are unchanged. |
| RuntimeService.LatestKnownRuntime.UpgradeRuntime | bin/wasm-node/rust/src/runtime_service.rs:823-851 | The new code and heap pages are stored and the runtime rebuilt from them, with no metadata cached. Every version subscriber is sent the new version and those reached are kept. |

## Left out

- Async machinery is not modelled, because it has no effect on the state once the lock is taken. This covers the mutex, `.await`, spawned tasks, the 3 s and 500 ms delays, and the draining of the best-block stream with `now_or_never`.
- Network queries (`storage_query`, `block_query`, `call_proof_query`) are inputs: a query result or `None` for a failure.
- Wasm compilation and execution, `core_version`, the metadata query and trie proofs are not modelled. Compilation with `core_version` is the uninterpreted function `compile`. The genesis metadata is an input of the constructor.
- `best_block_runtime` is not modelled. It is read-only: it returns the stored runtime's spec, that is `SpecOf(runtime)` (bin/wasm-node/rust/src/runtime_service.rs:274-283).
- `recent_best_block_runtime_call`, `metadata` and the restart loop of the runtime call are not modelled. They are not read-only.
  - `metadata` fills the runtime's metadata cache on a miss (bin/wasm-node/rust/src/runtime_service.rs:481-482). That fill is not modelled.
  - `recent_best_block_runtime_call_inner` takes the virtual machine out of the runtime and puts it back on every exit path (bin/wasm-node/rust/src/runtime_service.rs:390-432), except the `NextKey` arm, whose `todo!()` panics with the virtual machine still taken out (bin/wasm-node/rust/src/runtime_service.rs:443-444). That take and restore is not modelled, because `SuccessfulRuntime` here has no virtual machine field.
  - Neither breaks `Valid()`, which compares only the runtime's version with the one its code and heap pages give.
- Logging is not modelled. Only whether the upgrade message is emitted is kept, as `reportsUpgrade`.
- `shrink_to_fit` is not modelled, because capacity has no meaning for a sequence.
- The header decoding of the new best block is taken as done. Its `unwrap` panic is not modelled.
- bin/wasm-node/rust/src/ffi/bindings.rs is not part of this model. It is FFI to the JavaScript host.
- The internals of the fragment verifier, the BABE epoch runtime calls, `storage_heap_pages_to_value`, `HostVmPrototype::new` and `ValidChainInformation::try_from` are not modelled. They are functions of `Host`, and only their outcomes matter here.
- The `StorageRoot` resume is not modelled separately. It is a child query of `QueryStorageRoot`, which the loop follows.
- `exec_hint` is not modelled, because it does not affect the routing.
- Header hashing is a function parameter of `StartBlockHash`.
- UTF-8 validation in `nom_string_decode` is a predicate parameter.
- nom's error kinds, its `Incomplete` result and the error payloads are not modelled. `length_data` reports too few bytes as `Incomplete`; the model reports it, like every other failure, as `Error`.
- The accessors (`as_chain_information`, `sources`, `source_user_data`, `source_user_data_mut`, `warp_sync_source`, `warp_sync_header`, `key`, `key_as_vec`) are not modelled. They do not change state.
- Slab ids are never reused here. A real slab reuses vacated slots.
- The debug build's panic on `1 << 64` in the mode-0b11 loop is not modelled. The as-written model takes release semantics.
- The doc comment saying `already_tried` is `false` exactly for the current request target is not stated as an invariant. `Verifier::next` re-enters `WarpSyncRequest` on an already-tried source.
- The decoder accepts a mode-0b11 encoding of a value below 2^30, or a 4-byte form of a value below 2^14. The source checks only that the highest byte is nonzero, so the model does the same.
- GrandpaWarpSync.WarpSync.FromBabeFetchEpochQuery: requires a BABE starting chain. The source reaches `unreachable!()` on any other consensus once both epochs are fetched.
- GrandpaWarpSync.WarpSync.SetVirtualMachineParams: requires a BABE starting chain, even on its early failure paths, for the same reason.
- GrandpaWarpSync.WarpSync.InjectValue: requires a BABE starting chain for the same reason.
- GrandpaWarpSync.WarpSync.InjectKey: requires a BABE starting chain for the same reason.
- RuntimeService.LatestKnownRuntime.constructor: requires the genesis runtime to compile. The source panics otherwise.

## Findings

| source | as written | input that shows it | evidently intended | confidence | as-written member | corrected member |
|---|---|---|---|---|---|---|
| src/util.rs:145-161 | In mode 0b11 the header allows up to 67 value bytes, but `1 << shift` on a 64-bit `usize` overflows once `shift` reaches 64. A release build takes the shift modulo 64, so `checked_mul` never fails and the ninth byte lands on bit 0. A debug build panics instead. | `[0x17, 0, 0, 0, 0, 0, 0, 0, 0, 1]`, nine value bytes encoding 2^64. As written it decodes to 1 with nothing left. | An error, since the value does not fit in a `usize` | not executed | ScaleCodec.OversizedCompactAsWritten | ScaleCodec.NomScaleCompactUsize |

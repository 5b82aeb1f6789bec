# Erasure-coded dataframe recovery, modelled in Dafny

`decodeCtganData` in `decode_dataframe.go` recovers a payload that was split into `K` data
shards and `M - K` Reed-Solomon parity shards, each shard stored base64 encoded in a JSON
descriptor (`EncodingMetadata`). This project models the routine from the point where the
descriptor has been parsed:

1. build the Reed-Solomon coder for `K` data and `M - K` parity shards;
2. make `K + M - K` shard slots and decode share `i` into slot `i`, leaving the rest nil;
3. let the coder rebuild the missing slots in place;
4. append the first `ShardSize` bytes of each data slot `0 .. K-1` to a buffer made with
   capacity `OriginalLength`;
5. cut that buffer to `OriginalLength` bytes.

The files:

- `go_runtime.dfy` (module `GoRuntime`) holds the Go semantics the routine relies on:
  - 64-bit `int` with wrap-around;
  - byte slices with a length and a capacity;
  - `make`, reslicing `s[:n]` (legal up to the capacity, not the length) and `append`.
- `decode_dataframe.dfy` (module `DecodeDataframe`) holds the routine:
  - `DecodeCtganData` is an imperative method over an `array` of slots. It has two loops,
    `DecodeShares` (step 2) and `JoinDataShards` (steps 4-5).
  - It is proved equal to the specification function `Recover`, which composes `Materialize`
    (the slot array after step 2) and `Reassemble` (steps 4-5).
  - A Go runtime panic is an outcome of its own, `Panicked(site)`, so the model is total. The
    lemmas can then say exactly when each panic happens.
- `recovery_properties.dfy` (module `RecoveryProperties`) holds what is proved about
  `Recover`: where each output byte comes from, the output length, that parity slots never
  reach the output, the error exits, the panics, and an end-to-end statement for intact data
  shards.

The three library calls are values in a `Libraries` record passed to the routine:
`reedsolomon.New`, `base64.StdEncoding.DecodeString` and `enc.Reconstruct`. Reconstruct
gets the slot slice by value and can rewrite slots but not add or drop them. It is therefore
given as the slot contents it leaves behind, and the method writes them back into the array.

The code validates less than a careful recovery routine would, and the model follows the
code as written:

- **Truncation past the joined data.** A routine that validated its input would reject a
  descriptor with `OriginalLength > K * ShardSize`. This code does not check it, and the cut
  at line 94 cannot fail: the buffer was made with capacity `OriginalLength` at line 86, and
  `append` never lowers capacity. Such a descriptor therefore yields the `K * ShardSize` data
  bytes followed by zero bytes from `make`, up to `OriginalLength`. `ReassembledPadding` and
  `ReassembleReturns` state this.
- **Parameter checks.** Nothing in the routine itself rejects `K <= 0`, `M <= K` or
  `ShardSize <= 0`; only `reedsolomon.New` can reject `K` and `M`. `ShardSize` is never
  checked: with `ShardSize == 0` every cut of an existing slot is legal and the output is
  `OriginalLength` zero bytes; with `ShardSize < 0` the first cut panics when `K > 0`.
- **Shard sizes.** Nothing checks that a decoded share is exactly `ShardSize` bytes. A data
  slot whose capacity is below `ShardSize` panics at the cut at line 88 (`ReassembleReturns`),
  and a longer one is silently cut to its first `ShardSize` bytes (`DataBytesAt`).
- **Too few shards.** The error for too few present shards comes from `Reconstruct`. It is
  modelled as an error that `Reconstruct` may return.

## Model

| member | source | states |
|---|---|---|
| GoRuntime.AddSubCancels | decode_dataframe.go:68 | the slot count `K + M - K`, computed with 64-bit wrap-around, equals `M` for every pair of `int`s |
| GoRuntime.MakeEmpty | decode_dataframe.go:86 | `make([]byte, 0, n)` has length 0, capacity `n` and a zeroed backing array |
| GoRuntime.Reslice | decode_dataframe.go:88 | `s[:n]`, legal for `0 <= n <= cap(s)`, has length `n`, shares the backing array, and its elements are the first `n` of that array |
| GoRuntime.Append | decode_dataframe.go:89 | `append` yields the old elements followed by the new ones; when the spare capacity suffices, the capacity is unchanged and the rest of the backing array is untouched |
| DecodeDataframe.FirstUndecodable | decode_dataframe.go:69-73 | the index of the first share whose base64 decoding fails: all shares before it decode, and it fails unless it is `len(Shares)` |
| DecodeDataframe.Materialize | decode_dataframe.go:66-75 | the slot array is returned iff there are at most `M` shares and all decode, and then slot `i` holds decoded share `i` and the later slots are nil; otherwise the error of the first failing share comes back, or the store at line 74 panics exactly when more than `M` shares come before any failure |
| DecodeDataframe.DecodeShares | decode_dataframe.go:69-75 | the in-place decoding loop ends exactly as `Materialize` says, and on success the array holds its slots |
| DecodeDataframe.TakePadded | decode_dataframe.go:94 | the final cut yields exactly `n` bytes: the joined bytes while they last, then zeros |
| DecodeDataframe.JoinDataShards | decode_dataframe.go:84-96 | the append loop and the final cut over the slot array end exactly as `Reassemble` says: a panic on a negative capacity or an illegal cut, otherwise the joined data cut or zero-padded to `n` bytes |
| DecodeDataframe.DecodeCtganData | decode_dataframe.go:59-96 | the routine's outcome, bytes, error or panic, is `Recover` of the metadata, provided `Reconstruct` keeps the slot count |
| RecoveryProperties.DataBytesLength | decode_dataframe.go:86-90 | when every cut is legal, the append loop collects exactly `K * ShardSize` bytes |
| RecoveryProperties.DataBytesAt | decode_dataframe.go:87-90 | byte `r < ShardSize` of data slot `q < K` is at position `q * ShardSize + r` of the joined data, so data slots appear in increasing index order |
| RecoveryProperties.DataBytesFrame | decode_dataframe.go:87-90 | the joined data depends on the data slots `0 .. K-1` alone |
| RecoveryProperties.ReassembledLength | decode_dataframe.go:86-94 | a returned result has exactly `OriginalLength` bytes, and when `OriginalLength <= K * ShardSize` it is a prefix of the joined data shards |
| RecoveryProperties.ReassembledDataByte | decode_dataframe.go:87-94 | output position `q * ShardSize + r` below `OriginalLength` holds byte `r` of data slot `q` |
| RecoveryProperties.ReassembledByteAt | decode_dataframe.go:87-94 | output byte `p` within the joined data is byte `p % ShardSize` of data slot `p / ShardSize` |
| RecoveryProperties.ReassembledPadding | decode_dataframe.go:86-94 | output bytes past `K * ShardSize` are the zeros `make` left in the buffer |
| RecoveryProperties.ReassembleReturns | decode_dataframe.go:84-94 | lines 84-94 return bytes iff `OriginalLength >= 0` and every data-shard cut is legal by capacity, so the cut at line 94 never panics, even when `OriginalLength > K * ShardSize` |
| RecoveryProperties.ParityNeverReachesOutput | decode_dataframe.go:87-90 | slot arrays that agree on slots `0 .. K-1` give the same outcome, so parity slots never reach the output |
| RecoveryProperties.ErrorExits | decode_dataframe.go:61-82 | a failing `reedsolomon.New`, the first share that fails to decode (at or before slot `M`), or a failing `Reconstruct` each make the routine return that error and no bytes |
| RecoveryProperties.SlotPanics | decode_dataframe.go:68-75 | once the coder exists, the slot `make` panics iff `M < 0`, and the store panics iff there are more than `M` shares and the first `M + 1` all decode |
| RecoveryProperties.SuccessMeansEveryStepSucceeded | decode_dataframe.go:59-96 | bytes come back only if every step succeeded (coder built, at most `M` shares, all decoded, `Reconstruct` succeeded, every cut legal), and then there are exactly `OriginalLength` of them |
| RecoveryProperties.StepsSucceededMeansReassemble | decode_dataframe.go:59-96 | conversely, once the coder is built, the shares are stored in the `M` slots and `Reconstruct` succeeds, the outcome is that of lines 84-94 on the rebuilt slots, so with `ReassembleReturns` bytes come back iff every step succeeds |
| RecoveryProperties.DecodedSharesStored | decode_dataframe.go:69-75 | when the decoding loop completes, its first `len(Shares)` slots are exactly the decoded shares |
| RecoveryProperties.DecodedCutsLegal | decode_dataframe.go:88 | when each data share decodes to at least `ShardSize >= 0` bytes, every cut at line 88 is legal |
| RecoveryProperties.DataSharesPassThrough | decode_dataframe.go:69-94 | when the coder is built, at most `M` shares all decode, each data share decodes to at least `ShardSize > 0` bytes, `Reconstruct` succeeds and leaves present slots alone, and `OriginalLength >= 0`, the routine returns bytes, and they are those of joining the decoded shares themselves: reconstruction and parity have no effect |
| RecoveryProperties.ReassembledShareByte | decode_dataframe.go:69-94 | joining such decoded shares succeeds, and byte `r` of share `q < K` is output byte `q * ShardSize + r` whenever that is below `OriginalLength` |

## Left out

- Reading the descriptor file and unmarshalling the JSON (decode_dataframe.go:40-51) are I/O
  and a foreign library. The model starts from a parsed `EncodingMetadata`.
- The logging with `fmt.Println` and `fmt.Printf` prints output only. It is not modelled.
- `saveToCSV`, `main` and the `DataFrame` and `Person` types (decode_dataframe.go:25-35,
  99-155) are not part of this model. They cover CSV output, process exit and floating-point
  fields.
- The Reed-Solomon coder and `Reconstruct` are library code over GF(2^8) and are not part
  of this model. They are parameters: `New` may return any coder or error, and `Reconstruct`
  may return any slot contents or error. This includes the too-few-shards and integrity
  errors.
- `DecodeCtganData` requires that `Reconstruct` keeps the slot count, which Go guarantees
  for a slice passed by value.
- DataSharesPassThrough: assumes as a hypothesis (`KeepsPresentShards`) that `Reconstruct`
  leaves non-empty slots unchanged. The library describes only missing slots being filled, but its code is not part of
  this model.
- Base64 decoding (standard alphabet with padding, RFC 4648 section 4) is a parameter. The
  model does not re-implement it.
- `Reconstruct` changes the slot array in place. The model writes back the slot contents it
  returns and does not model aliasing between slots and the buffers it may reuse.
- Append: when `append` has to grow the buffer, the model does not give the extra capacity of
  the new array. That capacity only matters for the cut at line 94, which is then below the
  length anyway.
- The size-limit panics of `make` at lines 68 and 86 are not modelled. Go panics there when
  `M` or `OriginalLength` exceeds the runtime's allocation limit, and the model returns a
  slot array or zero-padded bytes instead. Running out of memory in `make` or `append` and
  panics inside the libraries are not modelled either.
- A nil slice and an empty non-nil slice are not distinguished. Nothing in the routine
  tells them apart.
- Running the routine twice on the same inputs gives the same outcome because `Recover` is
  a function. No separate lemma states this.

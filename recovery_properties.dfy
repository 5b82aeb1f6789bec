/** What the recovery routine guarantees, stated over its specification in
    `DecodeDataframe`: where each output byte comes from, that parity slots never
    reach the output, how it ends when a step fails, and that with intact data
    shares the output is their bytes. */
module RecoveryProperties {
  import opened GoRuntime
  import opened DecodeDataframe

  /** The append loop of lines 87-90 collects exactly `k * s` bytes. */
  lemma {:induction false} DataBytesLength(slots: seq<Slice>, k: nat, s: int)
    requires CutsLegal(slots, k, s)
    ensures |DataBytes(slots, k, s)| == k * s
  {
    if k > 0 {
      assert CutLegal(slots, k - 1, s);
      DataBytesLength(slots, k - 1, s);
    }
  }

  /** Byte `r < s` of data slot `q < k` lands at position `q * s + r` of the joined
      data shards. */
  lemma {:induction false} DataBytesAt(slots: seq<Slice>, k: nat, s: int, q: nat, r: nat)
    requires CutsLegal(slots, k, s)
    requires q < k && r < s
    ensures q < |slots| && r < slots[q].Cap()
    ensures q * s + r < |DataBytes(slots, k, s)|
    ensures DataBytes(slots, k, s)[q * s + r] == slots[q].Backing()[r]
  {
    assert CutLegal(slots, q, s);
    assert CutLegal(slots, k - 1, s);
    DataBytesLength(slots, k - 1, s);
    if q < k - 1 {
      DataBytesAt(slots, k - 1, s, q, r);
    }
  }

  /** The joined data depends on the data slots `0 .. k-1` alone. */
  lemma {:induction false} DataBytesFrame(a: seq<Slice>, b: seq<Slice>, k: nat, s: int)
    requires CutsLegal(a, k, s) && CutsLegal(b, k, s)
    requires k <= |a| && k <= |b| && a[..k] == b[..k]
    ensures DataBytes(a, k, s) == DataBytes(b, k, s)
  {
    if k > 0 {
      assert a[..k - 1] == a[..k][..k - 1];
      assert b[..k - 1] == b[..k][..k - 1];
      assert a[k - 1] == a[..k][k - 1];
      DataBytesFrame(a, b, k - 1, s);
    }
  }

  /** What lines 84-94 produce from the rebuilt slots: exactly `n` bytes, and when
      `n` is at most the `k * s` joined bytes, a prefix of the joined data shards. */
  lemma ReassembledLength(slots: seq<Slice>, k: Int, s: Int, n: Int)
    requires Reassemble(slots, k, s, n).Returned?
    ensures |Reassemble(slots, k, s, n).value| == n
    ensures |DataBytes(slots, NatOf(k), s)| == NatOf(k) * s
    ensures n <= NatOf(k) * s ==>
      Reassemble(slots, k, s, n).value == DataBytes(slots, NatOf(k), s)[..n]
  {
    DataBytesLength(slots, NatOf(k), s);
  }

  /** Byte `r < s` of data slot `q < k` is at position `q * s + r` of what lines 84-94
      produce, whenever that position is below `n`. */
  lemma ReassembledDataByte(slots: seq<Slice>, k: Int, s: Int, n: Int, q: int, r: int)
    requires Reassemble(slots, k, s, n).Returned?
    requires 0 <= q < k && 0 <= r < s && q * s + r < n
    ensures q < |slots| && r < slots[q].Cap()
    ensures Reassemble(slots, k, s, n).value[q * s + r] == slots[q].Backing()[r]
  {
    assert NatOf(k) == k;
    DataBytesAt(slots, k, s, q, r);
  }

  /** Byte `p` of what lines 84-94 produce, for `p` within the `k * s` joined bytes, is
      byte `p % s` of data slot `p / s`. */
  lemma ReassembledByteAt(slots: seq<Slice>, k: Int, s: Int, n: Int, p: int)
    requires Reassemble(slots, k, s, n).Returned?
    requires 0 <= p < n && 0 < s && p < NatOf(k) * s
    ensures p / s < |slots| && p % s < slots[p / s].Cap()
    ensures Reassemble(slots, k, s, n).value[p] == slots[p / s].Backing()[p % s]
  {
    QuotientBelow(p, NatOf(k), s);
    ReassembledBlockByte(slots, k, s, n, p, p / s, p % s);
  }

  /** `ReassembledDataByte` for a position `p` already split into block `q` and offset `r`. */
  lemma ReassembledBlockByte(slots: seq<Slice>, k: Int, s: Int, n: Int, p: int, q: int, r: int)
    requires Reassemble(slots, k, s, n).Returned?
    requires 0 <= p < n && 0 <= q < NatOf(k) && 0 <= r < s && q * s + r == p
    ensures q < |slots| && r < slots[q].Cap()
    ensures Reassemble(slots, k, s, n).value[p] == slots[q].Backing()[r]
  {
    ReassembledDataByte(slots, k, s, n, q, r);
  }

  /** A position below `k` blocks of `s` lies in one of the first `k` blocks. */
  lemma QuotientBelow(p: nat, k: nat, s: int)
    requires 0 < s && p < k * s
    ensures p / s < k && 0 <= p % s < s && p / s * s + p % s == p
  {
    if p / s >= k {
      MulMonotone(k, p / s, s);
      assert false;
    }
  }

  lemma MulMonotone(a: nat, b: nat, s: nat)
    requires a <= b
    ensures a * s <= b * s
  {
  }

  /** Past the `k * s` joined bytes, what lines 84-94 produce is zeros left by the
      `make` of line 86. */
  lemma ReassembledPadding(slots: seq<Slice>, k: Int, s: Int, n: Int, p: int)
    requires Reassemble(slots, k, s, n).Returned?
    requires NatOf(k) * s <= p < n
    ensures Reassemble(slots, k, s, n).value[p] == 0
  {
    DataBytesLength(slots, NatOf(k), s);
  }

  /** Lines 84-94 return bytes exactly when the buffer can be made and every data-shard
      cut is legal; in particular the final cut at line 94 never panics. */
  lemma ReassembleReturns(slots: seq<Slice>, k: Int, s: Int, n: Int)
    ensures Reassemble(slots, k, s, n).Returned? <==> 0 <= n && CutsLegal(slots, k, s)
  {
  }

  /** Parity slots never reach the output: slot sequences that agree on the data slots
      `0 .. k-1` give the same outcome, bytes or panic. */
  lemma ParityNeverReachesOutput(a: seq<Slice>, b: seq<Slice>, k: Int, s: Int, n: Int)
    requires |a| == |b| || (k <= |a| && k <= |b|)
    requires forall i :: 0 <= i < k && i < |a| && i < |b| ==> a[i] == b[i]
    ensures Reassemble(a, k, s, n) == Reassemble(b, k, s, n)
  {
    assert forall i :: 0 <= i < k ==> (CutLegal(a, i, s) <==> CutLegal(b, i, s));
    if n >= 0 && CutsLegal(a, k, s) {
      var kn := NatOf(k);
      assert kn == 0 || CutLegal(a, kn - 1, s);
      assert a[..kn] == b[..kn];
      DataBytesFrame(a, b, kn, s);
    }
  }

  /** Each error of lines 61-82 is returned unchanged and ends the routine without any
      bytes: a failing `reedsolomon.New`, the first share that does not decode (when it
      comes no later than slot `M`), or a failing `Reconstruct`. */
  lemma ErrorExits<C>(md: EncodingMetadata, lib: Libraries<C>)
    ensures lib.rsNew(md.k, Wrap(md.m - md.k)).Err? ==>
      Recover(md, lib) == Failed(lib.rsNew(md.k, Wrap(md.m - md.k)).error)
    ensures forall j ::
      (0 <= j < |md.shares| && j <= md.m &&
       lib.rsNew(md.k, Wrap(md.m - md.k)).Ok? &&
       lib.base64Decode(md.shares[j]).Err? &&
       forall i :: 0 <= i < j ==> lib.base64Decode(md.shares[i]).Ok?) ==>
        Recover(md, lib) == Failed(lib.base64Decode(md.shares[j]).error)
    ensures (0 <= md.m && lib.rsNew(md.k, Wrap(md.m - md.k)).Ok? &&
      Materialize(md.shares, lib.base64Decode, md.m).Returned? &&
      lib.rsReconstruct(lib.rsNew(md.k, Wrap(md.m - md.k)).value,
        Materialize(md.shares, lib.base64Decode, md.m).value).Err?) ==>
        Recover(md, lib) == Failed(lib.rsReconstruct(lib.rsNew(md.k, Wrap(md.m - md.k)).value,
          Materialize(md.shares, lib.base64Decode, md.m).value).error)
  {
    AddSubCancels(md.k, md.m);
  }

  /** The two panics before reconstruction: the slot slice cannot be made when `M` is
      negative (line 68), and the store at line 74 runs off its `M` slots exactly when
      there are more than `M` shares and the first `M + 1` of them decode. */
  lemma SlotPanics<C>(md: EncodingMetadata, lib: Libraries<C>)
    requires lib.rsNew(md.k, Wrap(md.m - md.k)).Ok?
    ensures Recover(md, lib) == Panicked(MakeShards) <==> md.m < 0
    ensures Recover(md, lib) == Panicked(StoreShard) <==>
      0 <= md.m < |md.shares| &&
      forall i :: 0 <= i <= md.m ==> lib.base64Decode(md.shares[i]).Ok?
  {
    AddSubCancels(md.k, md.m);
  }

  /** Bytes come back only when every step succeeded: the coder was built, there were
      at most `M` shares and all of them decoded into the `M` slots, `Reconstruct`
      succeeded, the buffer could be made, and every data-shard cut was legal. The
      result then has exactly `OriginalLength` bytes. */
  lemma SuccessMeansEveryStepSucceeded<C>(md: EncodingMetadata, lib: Libraries<C>)
    requires Recover(md, lib).Returned?
    ensures lib.rsNew(md.k, Wrap(md.m - md.k)).Ok?
    ensures 0 <= md.m && |md.shares| <= md.m
    ensures forall i :: 0 <= i < |md.shares| ==> lib.base64Decode(md.shares[i]).Ok?
    ensures Materialize(md.shares, lib.base64Decode, md.m).Returned?
    ensures var rebuilt := lib.rsReconstruct(lib.rsNew(md.k, Wrap(md.m - md.k)).value,
        Materialize(md.shares, lib.base64Decode, md.m).value);
      rebuilt.Ok? && CutsLegal(rebuilt.value, md.k, md.shardSize) &&
      Recover(md, lib) == Reassemble(rebuilt.value, md.k, md.shardSize, md.originalLength)
    ensures 0 <= md.originalLength && |Recover(md, lib).value| == md.originalLength
  {
    AddSubCancels(md.k, md.m);
  }

  /** Conversely, once the coder is built, the shares are in the `M` slots and
      `Reconstruct` succeeds, the outcome is that of lines 84-94 on the rebuilt slots;
      with `ReassembleReturns`, bytes come back exactly when moreover the buffer can be
      made and every data-shard cut is legal. */
  lemma StepsSucceededMeansReassemble<C>(md: EncodingMetadata, lib: Libraries<C>)
    requires lib.rsNew(md.k, Wrap(md.m - md.k)).Ok? && 0 <= md.m
    requires Materialize(md.shares, lib.base64Decode, md.m).Returned?
    requires lib.rsReconstruct(lib.rsNew(md.k, Wrap(md.m - md.k)).value,
      Materialize(md.shares, lib.base64Decode, md.m).value).Ok?
    ensures Recover(md, lib) == Reassemble(
      lib.rsReconstruct(lib.rsNew(md.k, Wrap(md.m - md.k)).value,
        Materialize(md.shares, lib.base64Decode, md.m).value).value,
      md.k, md.shardSize, md.originalLength)
  {
    AddSubCancels(md.k, md.m);
  }

  /** What the library documents of `Reconstruct` (the library is not part of this
      model, so this is a hypothesis, not a fact proved here): slots that already hold
      bytes are left as they are. */
  ghost predicate KeepsPresentShards<C(!new)>(lib: Libraries<C>)
  {
    forall coder, slots: seq<Slice>, i ::
      lib.rsReconstruct(coder, slots).Ok? && 0 <= i < |slots| && slots[i].Len() > 0 ==>
        i < |lib.rsReconstruct(coder, slots).value| &&
        lib.rsReconstruct(coder, slots).value[i] == slots[i]
  }

  /** The shares as `DecodeShares` stores them, nil where a share does not decode. */
  function DecodedShares(shares: seq<string>, decode: string -> Result<Slice>): (r: seq<Slice>)
    ensures |r| == |shares|
    ensures forall i :: 0 <= i < |shares| ==> r[i] == DecodedOrNil(decode(shares[i]))
  {
    seq(|shares|, i requires 0 <= i < |shares| => DecodedOrNil(decode(shares[i])))
  }

  /** When the decoding loop of lines 69-75 completes, its first `len(Shares)` slots are
      exactly the decoded shares: the slot contents `Materialize` promises, restated as
      the sequence `DecodedShares`. */
  lemma DecodedSharesStored(shares: seq<string>, decode: string -> Result<Slice>, m: nat)
    requires Materialize(shares, decode, m).Returned?
    ensures DecodedShares(shares, decode) == Materialize(shares, decode, m).value[..|shares|]
  {
  }

  /** End to end: when the coder is built, the shares fit the `M` slots and all decode,
      each data share `0 .. K-1` decodes to at least `ShardSize > 0` bytes, `Reconstruct`
      succeeds and leaves present slots alone, and `OriginalLength >= 0`, the routine
      returns bytes, and they are those of joining the decoded shares themselves: neither
      reconstruction nor the parity shares have any effect on the bytes recovered. */
  lemma DataSharesPassThrough<C(!new)>(md: EncodingMetadata, lib: Libraries<C>)
    requires KeepsPresentShards(lib)
    requires lib.rsNew(md.k, Wrap(md.m - md.k)).Ok? && 0 <= md.m && |md.shares| <= md.m
    requires forall i :: 0 <= i < |md.shares| ==> lib.base64Decode(md.shares[i]).Ok?
    requires lib.rsReconstruct(lib.rsNew(md.k, Wrap(md.m - md.k)).value,
      Materialize(md.shares, lib.base64Decode, md.m).value).Ok?
    requires 0 < md.shardSize && 0 <= md.k <= |md.shares| && 0 <= md.originalLength
    requires forall i :: 0 <= i < md.k ==>
      md.shardSize <= DecodedOrNil(lib.base64Decode(md.shares[i])).Len()
    ensures Recover(md, lib).Returned?
    ensures Recover(md, lib) ==
      Reassemble(DecodedShares(md.shares, lib.base64Decode), md.k, md.shardSize, md.originalLength)
  {
    var coder := lib.rsNew(md.k, Wrap(md.m - md.k)).value;
    var slots := Materialize(md.shares, lib.base64Decode, md.m).value;
    var rebuilt := lib.rsReconstruct(coder, slots).value;
    var decoded := DecodedShares(md.shares, lib.base64Decode);
    StepsSucceededMeansReassemble(md, lib);
    DecodedCutsLegal(md.shares, lib.base64Decode, md.k, md.shardSize);
    forall i | 0 <= i < md.k
      ensures i < |rebuilt| && rebuilt[i] == decoded[i]
    {
      assert slots[i] == decoded[i];
      KeptShard(lib, coder, slots, i);
    }
    ParityNeverReachesOutput(rebuilt, decoded, md.k, md.shardSize, md.originalLength);
  }

  /** Joining decoded shares whose first `k` each hold at least `s > 0` bytes succeeds,
      and byte `r < s` of share `q < k` lands at position `q * s + r` of the output
      whenever that position is below `n`. */
  lemma ReassembledShareByte(shares: seq<string>, decode: string -> Result<Slice>,
                             k: Int, s: Int, n: Int, q: int, r: int)
    requires 0 < s && 0 <= k <= |shares| && 0 <= n
    requires forall i :: 0 <= i < k ==> s <= DecodedOrNil(decode(shares[i])).Len()
    requires 0 <= q < k && 0 <= r < s && q * s + r < n
    ensures Reassemble(DecodedShares(shares, decode), k, s, n).Returned?
    ensures r < DecodedOrNil(decode(shares[q])).Len()
    ensures Reassemble(DecodedShares(shares, decode), k, s, n).value[q * s + r] ==
      DecodedOrNil(decode(shares[q])).data[r]
  {
    var decoded := DecodedShares(shares, decode);
    DecodedCutsLegal(shares, decode, k, s);
    ReassembledDataByte(decoded, k, s, n, q, r);
    assert decoded[q] == DecodedOrNil(decode(shares[q]));
  }

  /** Every data share holds at least `s` bytes, so every cut at line 88 is legal. */
  lemma DecodedCutsLegal(shares: seq<string>, decode: string -> Result<Slice>, k: int, s: int)
    requires 0 <= s && k <= |shares|
    requires forall i :: 0 <= i < k ==> s <= DecodedOrNil(decode(shares[i])).Len()
    ensures CutsLegal(DecodedShares(shares, decode), k, s)
  {
    var decoded := DecodedShares(shares, decode);
    forall i | 0 <= i < k ensures CutLegal(decoded, i, s) {
      assert decoded[i] == DecodedOrNil(decode(shares[i]));
    }
  }

  lemma KeptShard<C(!new)>(lib: Libraries<C>, coder: C, slots: seq<Slice>, i: int)
    requires KeepsPresentShards(lib)
    requires lib.rsReconstruct(coder, slots).Ok? && 0 <= i < |slots| && slots[i].Len() > 0
    ensures i < |lib.rsReconstruct(coder, slots).value|
    ensures lib.rsReconstruct(coder, slots).value[i] == slots[i]
  {
  }
}

/** Steps 3 to 7 of `decodeCtganData`: build the Reed-Solomon coder, turn the base64
    shares into shard slots, let the coder rebuild the missing slots, join the data
    shards and cut the result to the original length. */
module DecodeDataframe {
  import opened GoRuntime

  /** The descriptor read from the JSON file, after unmarshalling. */
  datatype EncodingMetadata = EncodingMetadata(
    k: Int,               // number of data shards
    m: Int,               // total number of shards, data and parity
    shardSize: Int,
    originalLength: Int,
    shares: seq<string>)  // the shards, base64 encoded

  /** The calls into code outside the repository, as the values they compute:
      `reedsolomon.New(dataShards, parityShards)`; `base64.StdEncoding.DecodeString`
      (RFC 4648, section 4), which yields the decoded bytes inside a buffer of some
      capacity; and `enc.Reconstruct(shards)`, given as the slot contents it leaves
      behind, or its error. */
  datatype Libraries<!C> = Libraries(
    rsNew: (Int, Int) -> Result<C>,
    base64Decode: string -> Result<Slice>,
    rsReconstruct: (C, seq<Slice>) -> Result<seq<Slice>>)

  /** `Reconstruct` receives the slot slice by value, so it can rewrite slots but not
      change how many there are. */
  ghost predicate KeepsSlotCount<C(!new)>(lib: Libraries<C>)
  {
    forall coder, slots :: lib.rsReconstruct(coder, slots).Ok? ==>
      |lib.rsReconstruct(coder, slots).value| == |slots|
  }

  /** Where the Go runtime would panic: `make` of the slot slice with a negative length
      (line 68), the store past its end (line 74), `make` of the output buffer with a
      negative capacity (line 86), and the index or cut of a data shard (line 88). */
  datatype PanicSite = MakeShards | StoreShard | MakeBuffer | CutShard

  /** How a step ends: it returns a value, returns an error, or panics. */
  datatype Outcome<T> = Returned(value: T) | Failed(error: string) | Panicked(site: PanicSite)

  /** The index of the first share that does not decode, or `|shares|` if all decode. */
  function FirstUndecodable(shares: seq<string>, decode: string -> Result<Slice>): (j: nat)
    ensures j <= |shares|
    ensures forall i :: 0 <= i < j ==> decode(shares[i]).Ok?
    ensures j < |shares| ==> decode(shares[j]).Err?
  {
    if shares == [] || decode(shares[0]).Err? then 0
    else 1 + FirstUndecodable(shares[1..], decode)
  }

  function DecodedOrNil(r: Result<Slice>): Slice
  {
    if r.Ok? then r.value else Nil
  }

  /** The slot array after the decoding loop of lines 69-75, which walks the shares in
      order into `m` slots: it stops at the first share that does not decode, and panics
      on reaching slot `m` when there are more shares than slots. */
  function Materialize(shares: seq<string>, decode: string -> Result<Slice>, m: nat)
    : (r: Outcome<seq<Slice>>)
    ensures r.Returned? <==>
      |shares| <= m && forall i :: 0 <= i < |shares| ==> decode(shares[i]).Ok?
    ensures r.Returned? ==>
      |r.value| == m &&
      (forall i :: 0 <= i < |shares| ==> r.value[i] == decode(shares[i]).value) &&
      (forall i :: |shares| <= i < m ==> r.value[i] == Nil)
    ensures r.Failed? ==>
      exists j :: 0 <= j <= m && j < |shares| && decode(shares[j]).Err? &&
        r.error == decode(shares[j]).error &&
        forall i :: 0 <= i < j ==> decode(shares[i]).Ok?
    ensures r.Panicked? <==>
      m < |shares| && forall i :: 0 <= i <= m ==> decode(shares[i]).Ok?
    ensures r.Panicked? ==> r.site == StoreShard
  {
    var j := FirstUndecodable(shares, decode);
    if j > m then Panicked(StoreShard)
    else if j < |shares| then Failed(decode(shares[j]).error)
    else Returned(seq(m, i => if 0 <= i < |shares| then DecodedOrNil(decode(shares[i])) else Nil))
  }

  /** Every cut `shards[i][:s]` for `0 <= i < k` at line 88 is legal: the slot exists and
      `s` lies within its capacity. */
  predicate CutsLegal(slots: seq<Slice>, k: int, s: int)
  {
    forall i :: 0 <= i < k ==> CutLegal(slots, i, s)
  }

  /** The cut `shards[i][:s]` is legal. */
  predicate CutLegal(slots: seq<Slice>, i: int, s: int)
  {
    0 <= i < |slots| && 0 <= s <= slots[i].Cap()
  }

  /** The bytes the append loop of lines 87-90 collects: the first `s` bytes of the
      backing array of each of the slots `0 .. k-1`, in index order. */
  function DataBytes(slots: seq<Slice>, k: nat, s: int): seq<byte>
    requires CutsLegal(slots, k, s)
  {
    if k == 0 then []
    else
      assert CutLegal(slots, k - 1, s);
      DataBytes(slots, k - 1, s) + Reslice(slots[k - 1], s).data
  }

  /** The first `n` bytes of `d`, followed by zeros where `d` is shorter than `n`. */
  function TakePadded(d: seq<byte>, n: nat): (r: seq<byte>)
    ensures |r| == n
    ensures forall p :: 0 <= p < n ==> r[p] == if p < |d| then d[p] else 0
  {
    if n <= |d| then d[..n] else d + Zeros(n - |d|)
  }

  function NatOf(x: int): nat
  {
    if x < 0 then 0 else x
  }

  /** Lines 84-94 on the rebuilt slots: the buffer made with capacity `n`, the `k`
      appended cuts of `s` bytes, and the final `[:n]`. */
  function Reassemble(slots: seq<Slice>, k: Int, s: Int, n: Int): Outcome<seq<byte>>
  {
    if n < 0 then Panicked(MakeBuffer)
    else if !CutsLegal(slots, k, s) then Panicked(CutShard)
    else Returned(TakePadded(DataBytes(slots, NatOf(k), s), n))
  }

  /** Lines 59-96: the whole recovery, from the metadata to the recovered bytes. */
  function Recover<C>(md: EncodingMetadata, lib: Libraries<C>): Outcome<seq<byte>>
  {
    match lib.rsNew(md.k, Wrap(md.m - md.k))
    case Err(e) => Failed(e)
    case Ok(coder) =>
      var count := Wrap(Wrap(md.k + md.m) - md.k);
      if count < 0 then Panicked(MakeShards)
      else
        match Materialize(md.shares, lib.base64Decode, count)
        case Failed(e) => Failed(e)
        case Panicked(site) => Panicked(site)
        case Returned(slots) =>
          match lib.rsReconstruct(coder, slots)
          case Err(e) => Failed(e)
          case Ok(rebuilt) => Reassemble(rebuilt, md.k, md.shardSize, md.originalLength)
  }

  /** `decodeCtganData` from step 3 on, with the metadata already read and parsed. */
  method DecodeCtganData<C(!new)>(md: EncodingMetadata, lib: Libraries<C>)
    returns (out: Outcome<seq<byte>>)
    requires KeepsSlotCount(lib)
    ensures out == Recover(md, lib)
  {
    // 3. create the Reed-Solomon coder
    var enc := lib.rsNew(md.k, Wrap(md.m - md.k));
    if enc.Err? {
      return Failed(enc.error);
    }

    // 4. decode the base64 shares into the slots
    var count := Wrap(Wrap(md.k + md.m) - md.k);
    if count < 0 {
      return Panicked(MakeShards);
    }
    var shards := new Slice[count](_ => Nil);
    var decoded := DecodeShares(md.shares, lib.base64Decode, shards);
    if !decoded.Returned? {
      return if decoded.Failed? then Failed(decoded.error) else Panicked(decoded.site);
    }

    // 5. rebuild the missing slots
    var rebuilt := lib.rsReconstruct(enc.value, shards[..]);
    if rebuilt.Err? {
      return Failed(rebuilt.error);
    }
    forall j | 0 <= j < shards.Length {
      shards[j] := rebuilt.value[j];
    }
    assert shards[..] == rebuilt.value;

    // 6. and 7.
    out := JoinDataShards(shards, md.k, md.shardSize, md.originalLength);
  }

  /** Lines 69-75: decode each share in turn into the slot of the same index, in place;
      the slots past the last share keep their nil. */
  method DecodeShares(shares: seq<string>, decode: string -> Result<Slice>, shards: array<Slice>)
    returns (r: Outcome<seq<Slice>>)
    requires forall j :: 0 <= j < shards.Length ==> shards[j] == Nil
    modifies shards
    ensures r == Materialize(shares, decode, shards.Length)
    ensures r.Returned? ==> shards[..] == r.value
  {
    var i := 0;
    while i < |shares|
      invariant 0 <= i <= |shares| && i <= shards.Length
      invariant forall j :: 0 <= j < i ==> decode(shares[j]).Ok?
      invariant forall j :: 0 <= j < i ==> shards[j] == decode(shares[j]).value
      invariant forall j :: i <= j < shards.Length ==> shards[j] == Nil
    {
      var shareBytes := decode(shares[i]);
      if shareBytes.Err? {
        return Failed(shareBytes.error);
      }
      if i >= shards.Length {
        return Panicked(StoreShard);
      }
      shards[i] := shareBytes.value;
      i := i + 1;
    }
    assert Materialize(shares, decode, shards.Length).Returned?;
    assert shards[..] == Materialize(shares, decode, shards.Length).value;
    r := Returned(shards[..]);
  }

  /** Lines 84-96: append the first `s` bytes of each of the slots `0 .. k-1` to a buffer
      made with capacity `n`, then cut the buffer to `n` bytes. */
  method JoinDataShards(shards: array<Slice>, k: Int, s: Int, n: Int)
    returns (out: Outcome<seq<byte>>)
    ensures out == Reassemble(shards[..], k, s, n)
  {
    // 6. join the data shards
    if n < 0 {
      return Panicked(MakeBuffer);
    }
    var recoveredData := MakeEmpty(n);
    var i := 0;
    while i < k
      invariant 0 <= i && (i <= k || i == 0)
      invariant CutsLegal(shards[..], i, s)
      invariant recoveredData.data == DataBytes(shards[..], i, s)
      invariant recoveredData.Cap() >= n
      invariant recoveredData.Len() <= n ==> recoveredData.spare == Zeros(n - recoveredData.Len())
    {
      if i >= shards.Length || !(0 <= s <= shards[i].Cap()) {
        assert !CutLegal(shards[..], i, s);
        return Panicked(CutShard);
      }
      var shard := Reslice(shards[i], s);
      recoveredData := Append(recoveredData, shard.data);
      i := i + 1;
    }

    // 7. drop the padding: always within the capacity the buffer was made with
    assert i == NatOf(k) && CutsLegal(shards[..], k, s);
    ghost var joined := recoveredData;
    recoveredData := Reslice(recoveredData, n);
    forall p | 0 <= p < n
      ensures recoveredData.data[p] == if p < |joined.data| then joined.data[p] else 0
    {
      assert recoveredData.data[p] == joined.Backing()[p];
    }
    assert recoveredData.data == TakePadded(joined.data, n);
    return Returned(recoveredData.data);
  }
}

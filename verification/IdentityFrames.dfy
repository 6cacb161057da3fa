/**
The identity index of a compacted log, split into frames of bounded size.

`IndexSize` is the size of the serialized index: an 8-byte magic, then variable-length
integers and byte strings. `SplitIndex` splits greedily by the sizes of one-receipt
indexes and never has to refuse a chunk it built; it refuses an index exactly when one
receipt alone is over the limit.
*/
module IdentityFrames {
  import opened ByteCodec
  import opened Model
  import opened TransactionCodec
  import opened StorageLog

  const INDEX_MAGIC_BYTES: nat := 8
  const U64_MAX: u64 := 0xFFFF_FFFF_FFFF_FFFF

  // Seven bits to a byte.
  function VarintSize(n: nat): (size: nat)
    ensures size >= 1
  {
    if n < 128 then 1 else 1 + VarintSize(n / 128)
  }

  function BytesSize(b: Bytes): nat { VarintSize(|b|) + |b| }

  function IdentifiedSize(r: CompactIdentified): nat {
    VarintSize(r.commitId) + VarintSize(r.payloadLen) + VarintSize(r.payloadCrc) + VarintSize(r.points)
    + VarintSize(r.records) + BytesSize(r.payload)
  }

  function IngressSize(r: CompactIngress): nat {
    VarintSize(r.identity.sourceId) + VarintSize(r.identity.sequence) + VarintSize(r.identity.commitId)
    + VarintSize(r.payloadLen) + VarintSize(r.payloadCrc) + VarintSize(r.points) + VarintSize(r.records)
    + BytesSize(r.payload) + VarintSize(r.frameOffset) + VarintSize(r.bytesWritten)
  }

  function IdentifiedBytes(rs: seq<CompactIdentified>): nat {
    if rs == [] then 0 else IdentifiedBytes(rs[..|rs| - 1]) + IdentifiedSize(rs[|rs| - 1])
  }

  function IngressBytes(rs: seq<CompactIngress>): nat {
    if rs == [] then 0 else IngressBytes(rs[..|rs| - 1]) + IngressSize(rs[|rs| - 1])
  }

  function IndexSize(i: IdentityIndex): nat {
    INDEX_MAGIC_BYTES + VarintSize(|i.identified|) + IdentifiedBytes(i.identified)
    + VarintSize(|i.ingress|) + IngressBytes(i.ingress)
  }

  // What the serialization library promises about sizes.
  ghost predicate SizesHold(env: Env) {
    forall i: IdentityIndex :: |env.encodeIndex(i)| == IndexSize(i)
  }

  function IdentifiedAlone(r: CompactIdentified): IdentityIndex { IdentityIndex([r], []) }

  function IngressAlone(r: CompactIngress): IdentityIndex { IdentityIndex([], [r]) }

  // ---- Sizes ----

  lemma {:induction false} VarintAtMost(n: nat, k: nat)
    requires n < Pow128(k)
    ensures k > 0 ==> VarintSize(n) <= k
    decreases k
  {
    if k > 1 && n >= 128 {
      assert n / 128 < Pow128(k - 1);
      VarintAtMost(n / 128, k - 1);
    }
  }

  function Pow128(k: nat): (p: nat)
    ensures p >= 1
  {
    if k == 0 then 1 else 128 * Pow128(k - 1)
  }

  lemma Pow128Values()
    ensures Pow128(5) == 0x8_0000_0000
    ensures Pow128(10) == 0x40_0000_0000_0000_0000
    ensures Pow128(19) == 0x20_0000_0000_0000_0000_0000_0000_0000_0000
  {
    assert Pow128(5) == 128 * Pow128(4) == 128 * 128 * Pow128(3) == 128 * 128 * 128 * Pow128(2);
    assert Pow128(10) == 128 * 128 * 128 * 128 * 128 * Pow128(5) by {
      assert Pow128(10) == 128 * Pow128(9) == 128 * 128 * Pow128(8) == 128 * 128 * 128 * Pow128(7);
      assert Pow128(7) == 128 * Pow128(6) == 128 * 128 * Pow128(5);
    }
    assert Pow128(15) == 128 * 128 * 128 * 128 * 128 * Pow128(10) by {
      assert Pow128(15) == 128 * Pow128(14) == 128 * 128 * Pow128(13) == 128 * 128 * 128 * Pow128(12);
      assert Pow128(12) == 128 * Pow128(11) == 128 * 128 * Pow128(10);
    }
    assert Pow128(19) == 128 * 128 * 128 * 128 * Pow128(15) by {
      assert Pow128(19) == 128 * Pow128(18) == 128 * 128 * Pow128(17) == 128 * 128 * 128 * Pow128(16);
    }
  }

  lemma {:induction false} VarintOfCount(n: nat)
    ensures VarintSize(n) <= n + 1
    ensures n > 0 ==> VarintSize(n) <= n
  {
    if n >= 128 {
      VarintOfCount(n / 128);
    }
  }

  lemma AloneSizes(r: CompactIdentified, s: CompactIngress)
    ensures IndexSize(IdentifiedAlone(r)) == 10 + IdentifiedSize(r)
    ensures IndexSize(IngressAlone(s)) == 10 + IngressSize(s)
  {
    hide IdentifiedSize, IngressSize;
    assert [r][..0] == [] && [s][..0] == [];
    assert IdentifiedBytes([r]) == IdentifiedSize(r);
    assert IngressBytes([s]) == IngressSize(s);
  }

  lemma {:induction false} VarintAtLeast(n: nat, k: nat)
    requires n >= Pow128(k)
    ensures VarintSize(n) >= k + 1
    decreases k
  {
    if k > 0 {
      assert n >= 128 * Pow128(k - 1) >= 128;
      assert n / 128 >= Pow128(k - 1);
      VarintAtLeast(n / 128, k - 1);
    }
  }

  lemma Pow128Below()
    ensures Pow128(4) == 0x1000_0000
    ensures Pow128(16) == 0x1_0000_0000_0000_0000_0000_0000_0000
  {
    Pow128Values();
    assert Pow128(5) == 128 * Pow128(4);
    assert Pow128(19) == 128 * Pow128(18) == 128 * 128 * Pow128(17) == 128 * 128 * 128 * Pow128(16);
  }

  // ---- Splitting ----

  function JoinIdentified(chunks: seq<IdentityIndex>): seq<CompactIdentified> {
    if chunks == [] then [] else JoinIdentified(chunks[..|chunks| - 1]) + chunks[|chunks| - 1].identified
  }

  function JoinIngress(chunks: seq<IdentityIndex>): seq<CompactIngress> {
    if chunks == [] then [] else JoinIngress(chunks[..|chunks| - 1]) + chunks[|chunks| - 1].ingress
  }

  // The sum the writer keeps: the sizes the receipts would have alone.
  function Estimate(i: IdentityIndex): nat {
    10 * (|i.identified| + |i.ingress|) + IdentifiedBytes(i.identified) + IngressBytes(i.ingress)
  }

  // The estimate never understates a chunk that holds a receipt.
  lemma EstimateCovers(i: IdentityIndex)
    requires |i.identified| + |i.ingress| > 0
    ensures IndexSize(i) <= Estimate(i)
  {
    VarintOfCount(|i.identified|);
    VarintOfCount(|i.ingress|);
  }

  predicate Fits(limit: nat, chunks: seq<IdentityIndex>) {
    forall c <- chunks :: IndexSize(c) <= limit && (c.identified != [] || c.ingress != [])
  }

  // Identified receipts come before ingress receipts, across all frames.
  predicate IdentifiedFirst(chunks: seq<IdentityIndex>) {
    forall i, j :: 0 <= i < j < |chunks| ==> chunks[i].ingress == [] || chunks[j].identified == []
  }

  lemma EstimateSnoc(c: IdentityIndex, r: CompactIdentified, s: CompactIngress)
    ensures Estimate(c.(identified := c.identified + [r])) == Estimate(c) + 10 + IdentifiedSize(r)
    ensures Estimate(c.(ingress := c.ingress + [s])) == Estimate(c) + 10 + IngressSize(s)
  {
    hide IdentifiedSize, IngressSize;
    assert (c.identified + [r])[..|c.identified|] == c.identified;
    assert (c.ingress + [s])[..|c.ingress|] == c.ingress;
  }

  lemma JoinSnoc(chunks: seq<IdentityIndex>, c: IdentityIndex)
    ensures JoinIdentified(chunks + [c]) == JoinIdentified(chunks) + c.identified
    ensures JoinIngress(chunks + [c]) == JoinIngress(chunks) + c.ingress
  {
    assert (chunks + [c])[..|chunks|] == chunks;
  }

  // Frames written so far, and the chunk being filled.
  datatype Split = Split(written: seq<IdentityIndex>, chunk: IdentityIndex, estimate: nat)

  predicate Empty(c: IdentityIndex) {
    c.identified == [] && c.ingress == []
  }

  // The size of the first receipt of a frame.
  function FirstSize(c: IdentityIndex): nat
    requires !Empty(c)
  {
    if c.identified != [] then IndexSize(IdentifiedAlone(c.identified[0])) else IndexSize(IngressAlone(c.ingress[0]))
  }

  // By the estimate, the first receipt of the second frame did not fit into the first.
  predicate Tight(limit: nat, a: IdentityIndex, b: IdentityIndex) {
    !Empty(b) ==> Estimate(a) + FirstSize(b) > limit
  }

  ghost predicate Packed(limit: nat, chunks: seq<IdentityIndex>) {
    forall i :: 0 < i < |chunks| ==> Tight(limit, chunks[i - 1], chunks[i])
  }

  ghost predicate SplitSoFar(limit: nat, s: Split) {
    && Fits(limit, s.written)
    && IdentifiedFirst(s.written)
    && s.estimate == Estimate(s.chunk) <= limit
    && (s.chunk.identified != [] ==> forall c <- s.written :: c.ingress == [])
  }

  ghost predicate SplitOk(limit: nat, s: Split) {
    && SplitSoFar(limit, s)
    && Packed(limit, s.written + [s.chunk])
    && (s.written != [] ==> !Empty(s.chunk))
  }

  function SoFarIdentified(s: Split): seq<CompactIdentified> { JoinIdentified(s.written) + s.chunk.identified }

  function SoFarIngress(s: Split): seq<CompactIngress> { JoinIngress(s.written) + s.chunk.ingress }

  // Starts a new frame when the next receipt would overfill the current one.
  function Roll(limit: nat, s: Split, bytes: nat): Split {
    if s.estimate > 0 && s.estimate + bytes > limit then Split(s.written + [s.chunk], IdentityIndex([], []), 0) else s
  }

  lemma RollKeeps(limit: nat, s: Split, bytes: nat)
    requires SplitSoFar(limit, s) && bytes <= limit
    ensures SplitSoFar(limit, Roll(limit, s, bytes)) && Roll(limit, s, bytes).estimate + bytes <= limit
    ensures SoFarIdentified(Roll(limit, s, bytes)) == SoFarIdentified(s)
    ensures SoFarIngress(Roll(limit, s, bytes)) == SoFarIngress(s)
    ensures SoFarIngress(s) == [] ==> forall c <- Roll(limit, s, bytes).written :: c.ingress == []
  {
    hide IndexSize, Estimate, JoinIdentified, JoinIngress, Fits, IdentifiedFirst;
    var r := Roll(limit, s, bytes);
    if r != s {
      EmptyEstimate(s.chunk);
      EmptyEstimate(r.chunk);
      JoinSnoc(s.written, s.chunk);
      ChunkWritten(limit, s);
    }
    if SoFarIngress(s) == [] {
      NoIngressWritten(s.written);
    }
  }

  // The chunk being filled may follow the frames written.
  lemma ChunkWritten(limit: nat, s: Split)
    requires SplitSoFar(limit, s) && !Empty(s.chunk)
    ensures Fits(limit, s.written + [s.chunk]) && IdentifiedFirst(s.written + [s.chunk])
  {
    hide IndexSize, Estimate;
    EstimateCovers(s.chunk);
  }

  // A frame is closed only when the next receipt does not fit into it.
  lemma RollPacks(limit: nat, s: Split, bytes: nat)
    requires SplitOk(limit, s) && bytes <= limit
    ensures var r := Roll(limit, s, bytes);
            && Packed(limit, r.written + [r.chunk])
            && (Empty(r.chunk) && r.written != [] ==> Estimate(r.written[|r.written| - 1]) + bytes > limit)
  {
    hide Estimate, Packed, Fits, IdentifiedFirst;
    if Roll(limit, s, bytes) != s {
      PackedEmpty(limit, s.written + [s.chunk]);
    }
  }

  lemma PackedEmpty(limit: nat, chunks: seq<IdentityIndex>)
    requires Packed(limit, chunks)
    ensures Packed(limit, chunks + [IdentityIndex([], [])])
  {
    hide Estimate, IndexSize;
  }

  lemma NothingPacked(limit: nat)
    ensures Packed(limit, [])
  {
  }

  // Growing the last chunk behind its first receipt changes nothing; starting it needs the estimate before.
  lemma PackedGrows(limit: nat, written: seq<IdentityIndex>, chunk: IdentityIndex, more: IdentityIndex)
    requires Packed(limit, written + [chunk]) && !Empty(more)
    requires if Empty(chunk) then written != [] ==> Estimate(written[|written| - 1]) + FirstSize(more) > limit
             else FirstSize(more) == FirstSize(chunk)
    ensures Packed(limit, written + [more])
  {
    hide Estimate, IndexSize, FirstSize;
    var before, after := written + [chunk], written + [more];
    forall i | 0 < i < |after| ensures Tight(limit, after[i - 1], after[i]) {
      assert Tight(limit, before[i - 1], before[i]);
      assert before[i - 1] == after[i - 1];
    }
  }

  lemma EmptyEstimate(c: IdentityIndex)
    ensures c.identified == [] && c.ingress == [] ==> Estimate(c) == 0
  {
  }

  lemma {:induction false} NoIngressWritten(chunks: seq<IdentityIndex>)
    ensures JoinIngress(chunks) == [] ==> forall c <- chunks :: c.ingress == []
  {
    if chunks != [] {
      NoIngressWritten(chunks[..|chunks| - 1]);
    }
  }

  method AddIdentified(limit: nat, s: Split, r: CompactIdentified) returns (next: Option<Split>)
    requires SplitOk(limit, s) && SoFarIngress(s) == []
    ensures next.None? <==> IndexSize(IdentifiedAlone(r)) > limit
    ensures next.Some? ==>
              && SplitOk(limit, next.value)
              && SoFarIdentified(next.value) == SoFarIdentified(s) + [r] && SoFarIngress(next.value) == []
  {
    hide IndexSize, IdentifiedSize, IngressSize, Estimate, Packed;
    var bytes := IndexSize(IdentifiedAlone(r));
    if bytes > limit {
      return None;
    }
    RollKeeps(limit, s, bytes);
    RollPacks(limit, s, bytes);
    var rolled := Roll(limit, s, bytes);
    ghost var any: CompactIngress :| true;
    AloneSizes(r, any);
    EstimateSnoc(rolled.chunk, r, any);
    var chunk := rolled.chunk.(identified := rolled.chunk.identified + [r]);
    assert rolled.chunk.ingress == [];
    PackedGrows(limit, rolled.written, rolled.chunk, chunk);
    next := Some(Split(rolled.written, chunk, rolled.estimate + bytes));
  }

  method AddIngress(limit: nat, s: Split, r: CompactIngress) returns (next: Option<Split>)
    requires SplitOk(limit, s)
    ensures next.None? <==> IndexSize(IngressAlone(r)) > limit
    ensures next.Some? ==>
              && SplitOk(limit, next.value)
              && SoFarIdentified(next.value) == SoFarIdentified(s) && SoFarIngress(next.value) == SoFarIngress(s) + [r]
  {
    hide IndexSize, IdentifiedSize, IngressSize, Estimate, Packed;
    var bytes := IndexSize(IngressAlone(r));
    if bytes > limit {
      return None;
    }
    RollKeeps(limit, s, bytes);
    RollPacks(limit, s, bytes);
    var rolled := Roll(limit, s, bytes);
    ghost var any: CompactIdentified :| true;
    AloneSizes(any, r);
    EstimateSnoc(rolled.chunk, any, r);
    var chunk := rolled.chunk.(ingress := rolled.chunk.ingress + [r]);
    PackedGrows(limit, rolled.written, rolled.chunk, chunk);
    next := Some(Split(rolled.written, chunk, rolled.estimate + bytes));
  }

  predicate SomeTooLarge(limit: nat, index: IdentityIndex) {
    || (exists r <- index.identified :: IndexSize(IdentifiedAlone(r)) > limit)
    || (exists r <- index.ingress :: IndexSize(IngressAlone(r)) > limit)
  }

  method SplitIdentified(limit: nat, rs: seq<CompactIdentified>) returns (r: Option<Split>)
    ensures r.None? <==> exists x <- rs :: IndexSize(IdentifiedAlone(x)) > limit
    ensures r.Some? ==> SplitOk(limit, r.value) && SoFarIdentified(r.value) == rs && SoFarIngress(r.value) == []
  {
    hide IndexSize, IdentifiedSize, IngressSize, Estimate;
    var s := Split([], IdentityIndex([], []), 0);
    EmptyEstimate(s.chunk);
    assert SplitOk(limit, s);
    for i := 0 to |rs|
      invariant SplitOk(limit, s) && SoFarIdentified(s) == rs[..i] && SoFarIngress(s) == []
      invariant forall x <- rs[..i] :: IndexSize(IdentifiedAlone(x)) <= limit
    {
      var next := AddIdentified(limit, s, rs[i]);
      if next.None? {
        assert rs[i] in rs;
        return None;
      }
      assert rs[..i + 1] == rs[..i] + [rs[i]];
      s := next.value;
    }
    assert rs[..|rs|] == rs;
    r := Some(s);
  }

  method SplitIngress(limit: nat, start: Split, rs: seq<CompactIngress>) returns (r: Option<Split>)
    requires SplitOk(limit, start) && SoFarIngress(start) == []
    ensures r.None? <==> exists x <- rs :: IndexSize(IngressAlone(x)) > limit
    ensures r.Some? ==>
              SplitOk(limit, r.value) && SoFarIdentified(r.value) == SoFarIdentified(start) && SoFarIngress(r.value) == rs
  {
    hide IndexSize, IdentifiedSize, IngressSize, Estimate, SplitOk, SoFarIdentified, SoFarIngress;
    var s := start;
    for i := 0 to |rs|
      invariant SplitOk(limit, s) && SoFarIdentified(s) == SoFarIdentified(start) && SoFarIngress(s) == rs[..i]
      invariant forall x <- rs[..i] :: IndexSize(IngressAlone(x)) <= limit
    {
      var next := AddIngress(limit, s, rs[i]);
      if next.None? {
        assert rs[i] in rs;
        return None;
      }
      assert rs[..i + 1] == rs[..i] + [rs[i]];
      s := next.value;
    }
    assert rs[..|rs|] == rs;
    r := Some(s);
  }

  /**
  The frames of an identity index. Together they hold exactly the index, in order,
  identified receipts first; none is empty and none exceeds the limit, and none starts before the
  one before it is full. The split is refused exactly when some receipt alone exceeds the limit.
  */
  method SplitIndex(limit: nat, index: IdentityIndex) returns (r: Option<seq<IdentityIndex>>)
    ensures r.None? <==> SomeTooLarge(limit, index)
    ensures r.Some? ==>
              && JoinIdentified(r.value) == index.identified && JoinIngress(r.value) == index.ingress
              && Fits(limit, r.value) && IdentifiedFirst(r.value) && Packed(limit, r.value)
  {
    hide IndexSize, Estimate, JoinIdentified, JoinIngress, Fits, IdentifiedFirst, Packed;
    var half := SplitIdentified(limit, index.identified);
    if half.None? {
      return None;
    }
    var whole := SplitIngress(limit, half.value, index.ingress);
    if whole.None? {
      return None;
    }
    var s := whole.value;
    var chunks := s.written;
    if s.chunk.identified != [] || s.chunk.ingress != [] {
      ChunkWritten(limit, s);
      JoinSnoc(s.written, s.chunk);
      chunks := s.written + [s.chunk];
    } else {
      assert s.written == [];
      assert Packed(limit, s.written) by { NothingPacked(limit); }
    }
    r := Some(chunks);
  }
}

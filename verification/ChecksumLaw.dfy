/**
What CRC-32 is to the retry comparison.

It satisfies what the ordered comparison asks of a checksum, so no ordered retry is taken for
damage. It does have collisions, and so the plain comparison can be deceived: two transactions of
one point each that differ only in the value collide under every commit identifier
(`ValuesCollide`), and sending one after the other poisons the writer (`CollisionPoisons`).
*/
module ChecksumLaw {
  import opened ByteCodec
  import opened Model
  import opened PointCodec
  import opened TransactionCodec
  import opened StorageLog
  import opened DurableLog
  import opened DatabaseModel
  import opened DatabaseRuns
  import Crc32
  import Receipts
  import Reclaim
  import StoreRuns

  lemma Crc32KeepsPrefix()
    ensures Receipts.PrefixLaw(Crc32.Checksum)
  {
    hide Crc32.Checksum;
    forall p: Bytes, a: Bytes, b: Bytes | |a| == |b| && Crc32.Checksum(a) == Crc32.Checksum(b)
      ensures Crc32.Checksum(p + a) == Crc32.Checksum(p + b)
    {
      Crc32.CollisionsKeepPrefix(p, a, b);
    }
  }

  // ---- Two values that collide ----

  // The bits of a very small number; the bits of zero are 0.
  const SMALL_VALUE: u64 := 0xED_B883_2080

  function OnePoint(p: Point): seq<Record> { [PointsRecord([p])] }

  function OneHeader(): Bytes {
    TRANSACTION_MAGIC + LE(1, 2) + LE(0, 2) + LE(1, 4) + [RECORD_POINTS, 1, 0, 0] + LE(76, 4) + LE(1, 4)
  }

  lemma OnePointEncodes(env: Env, p: Point)
    ensures EncodeCanonical(env, OnePoint(p)) == Some(OneHeader() + EncodePoint(p))
  {
    hide LE, EncodePoint;
    var r := PointsRecord([p]);
    assert [p][1..] == [] && OnePoint(p)[1..] == [];
    assert EncodePoints([p]) == EncodePoint(p) + EncodePoints([]) == EncodePoint(p);
    var head := [RECORD_POINTS, 1, 0, 0] + LE(76, 4) + (LE(1, 4) + EncodePoint(p));
    assert EncodeRecord(env, r) == Some(head);
    assert head + [] == head;
    assert EncodeRecords(env, OnePoint(p)) == Some(head);
    assert EncodeCanonical(env, OnePoint(p)).value == OneHeader() + EncodePoint(p);
  }

  lemma ValueBytes()
    ensures LE(0, 8) == Crc32.BLANK + [0, 0, 0]
    ensures LE(SMALL_VALUE, 8) == Crc32.FLIP + [0, 0, 0]
  {
    hide LE;
    LowFirst(0, 0, 0, 3);
    LowFirst(0, 0, 0, 4);
    LowFirst(0, 0, 0, 5);
    LowFirst(0, 0, 0, 6);
    LowFirst(0, 0, 0, 7);
    LowFirst(0, 0, 0, 0);
    LowFirst(0, 0, 0, 1);
    LowFirst(0, 0, 0, 2);
    NoBytes(0);
    LowFirst(0xED, 0xED, 0, 3);
    LowFirst(0xEDB8, 0xB8, 0xED, 4);
    LowFirst(0xED_B883, 0x83, 0xEDB8, 5);
    LowFirst(0xEDB8_8320, 0x20, 0xED_B883, 6);
    LowFirst(SMALL_VALUE, 0x80, 0xEDB8_8320, 7);
  }

  lemma LowFirst(n: nat, low: byte, high: nat, w: nat)
    requires n == low + 256 * high
    ensures LE(n, w + 1) == [low] + LE(high, w)
  {
    assert n % 256 == low && n / 256 == high;
  }

  lemma NoBytes(n: nat)
    ensures LE(n, 0) == []
  {
  }

  lemma PointAroundValue(p: Point, v: u64)
    ensures var e := EncodePoint(p); EncodePoint(p.(value := v)) == e[..56] + LE(v, 8) + e[64..]
  {
    hide LE;
    var e, f := EncodePoint(p), EncodePoint(p.(value := v));
    PointSlices(p);
    PointSlices(p.(value := v));
    assert f[..56] == f[0..8] + f[8..16] + f[16..24] + f[24..32] + f[32..40] + f[40..56];
    assert e[..56] == e[0..8] + e[8..16] + e[16..24] + e[24..32] + e[32..40] + e[40..56];
    assert f[64..] == f[64..68] + f[68..72] && e[64..] == e[64..68] + e[68..72];
    assert f == f[..56] + f[56..64] + f[64..];
  }

  /**
  A point with the value zero and the same point with the small value: different transactions,
  equally long, with the same checksum under every commit identifier.
  */
  lemma ValuesCollide(env: Env, c: u128, p: Point)
    requires p.value == 0
    ensures EncodeCanonical(env, OnePoint(p)).Some? && EncodeCanonical(env, OnePoint(p.(value := SMALL_VALUE))).Some?
    ensures var a := TagBytes(Identified(c)) + EncodeCanonical(env, OnePoint(p)).value;
            var b := TagBytes(Identified(c)) + EncodeCanonical(env, OnePoint(p.(value := SMALL_VALUE))).value;
            a != b && |a| == |b| && Crc32.Checksum(a) == Crc32.Checksum(b)
  {
    hide LE, EncodePoint, EncodeCanonical, TagBytes, OneHeader, Crc32.Checksum;
    var q := p.(value := SMALL_VALUE);
    OnePointEncodes(env, p);
    OnePointEncodes(env, q);
    PointAroundValue(p, 0);
    PointAroundValue(p, SMALL_VALUE);
    ValueBytes();
    assert p.(value := 0) == p;
    var e, tag := EncodePoint(p), TagBytes(Identified(c));
    var front, back := tag + OneHeader() + e[..56], [0, 0, 0] + e[64..];
    var a, b := tag + EncodeCanonical(env, OnePoint(p)).value, tag + EncodeCanonical(env, OnePoint(q)).value;
    assert a == front + Crc32.BLANK + back;
    assert b == front + Crc32.FLIP + back;
    assert a[|front|] == 0 && b[|front|] == 0x80;
    Crc32.FlipCollides(front, back);
  }

  /**
  On any database, a point with the value zero committed under an unused identifier and then the
  same point with the small value under that identifier: the second call is answered as
  corruption and poisons the writer, although nothing on disk is damaged.
  */
  lemma CollisionPoisons(s: Setting, db: Handle, c: u128, p: Point, io: Io, again: Io)
    requires Fair(s) && Good(s, db) && s.env.crc == Crc32.Checksum && p.value == 0
    requires var reply := Perform(s.env, s.cfg, db, CommitTransaction(Transaction(OnePoint(p), Some(c), None)), io).1;
             reply.Done? && !reply.commit.deduplicated
    ensures var after := Perform(s.env, s.cfg, db, CommitTransaction(Transaction(OnePoint(p), Some(c), None)), io).0;
            var u := Transaction(OnePoint(p.(value := SMALL_VALUE)), Some(c), None);
            && Good(s, after) && !after.journal.poisoned
            && Perform(s.env, s.cfg, after, CommitTransaction(u), again)
            == (after.(journal := after.journal.(poisoned := true)), Fail(Corruption))
  {
    hide HandleInv, EncodeCanonical, TagBytes, Crc32.Checksum, Perform, OnePoint, Reclaim.IdentifiedStandsFor,
      TaggedFrame, PointsOf;
    assert OnePoint(p) != [] by { OnePointThere(p); }
    ValuesCollide(s.env, c, p);
    var t := Transaction(OnePoint(p), Some(c), None);
    var canonical := EncodeCanonical(s.env, OnePoint(p)).value;
    IdentifiedWritten(s, db, c, t, io);
    var after := Perform(s.env, s.cfg, db, CommitTransaction(t), io).0;
    StoreRuns.WrittenIdentified(s.env, db.journal.log, c, t.records, canonical, after.memory.ids.identified[c]);
    Reclaim.IdentifiedRetry(s, after, c, OnePoint(p.(value := SMALL_VALUE)), TagBytes(Identified(c)) + canonical, again);
  }

  lemma OnePointThere(p: Point)
    ensures OnePoint(p) != []
  {
  }
}

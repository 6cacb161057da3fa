/**
Fields of the sidecar's wire protocol.

`Put…(v, rest)` is the bytes of a field followed by `rest`; `Take…(raw)` reads a field off the
front and leaves the rest. Every `Take…` promises that what it accepts is exactly what `Put…`
writes, so a field has one byte form; the `…RoundTrip` lemmas give the other direction.
*/
module WireFields {
  import opened ByteCodec
  import opened Model
  import opened SortedMaps
  import Utf8

  datatype Parsed<+T> = Rejected | Parsed(value: T, rest: Bytes) {
    predicate IsFailure() {
      Rejected?
    }
    function PropagateFailure<U>(): Parsed<U> {
      Rejected
    }
    function Extract(): (r: Parsed<T>)
      requires !IsFailure()
      ensures r.Parsed?
    {
      this
    }
  }

  // Reading inverts writing on the values that may be written, and accepts nothing else.
  ghost predicate Inverse<T(!new)>(fits: T -> bool, put: (T, Bytes) -> Bytes, take: Bytes -> Parsed<T>) {
    && (forall v, rest :: fits(v) ==> take(put(v, rest)) == Parsed(v, rest))
    && (forall raw :: take(raw).Parsed? ==>
          fits(take(raw).value) && raw == put(take(raw).value, take(raw).rest))
  }

  // ---- Integers ----

  function PutU(n: nat, w: nat, rest: Bytes): (r: Bytes)
    ensures |r| == w + |rest|
  {
    BE(n, w) + rest
  }

  function TakeU(raw: Bytes, w: nat): (r: Parsed<nat>)
    ensures r.Parsed? ==> r.value < Pow256(w) && raw == PutU(r.value, w, r.rest)
  {
    if |raw| < w then Rejected
    else
      BEOfFromBE(raw[..w]);
      Parsed(FromBE(raw[..w]), raw[w..])
  }

  lemma URoundTrip(n: nat, w: nat, rest: Bytes)
    requires n < Pow256(w)
    ensures TakeU(PutU(n, w, rest), w) == Parsed(n, rest)
  {
    FromBEOfBE(n, w);
    TakeDrop(BE(n, w), rest);
  }

  function TakeByte(raw: Bytes): (r: Parsed<byte>)
    ensures r.Parsed? ==> raw == PutByte(r.value, r.rest)
  {
    if raw == [] then Rejected else Parsed(raw[0], raw[1..])
  }

  function PutByte(b: byte, rest: Bytes): (r: Bytes)
    ensures r != [] && r[0] == b && r[1..] == rest
  {
    [b] + rest
  }

  function TakeU16(raw: Bytes): (r: Parsed<u16>)
    ensures r.Parsed? ==> raw == PutU(r.value, 2, r.rest)
  {
    Pow256Values();
    var n :- TakeU(raw, 2);
    Parsed(n.value, n.rest)
  }

  function TakeU32(raw: Bytes): (r: Parsed<u32>)
    ensures r.Parsed? ==> raw == PutU(r.value, 4, r.rest)
  {
    Pow256Values();
    var n :- TakeU(raw, 4);
    Parsed(n.value, n.rest)
  }

  function TakeU64(raw: Bytes): (r: Parsed<u64>)
    ensures r.Parsed? ==> raw == PutU(r.value, 8, r.rest)
  {
    Pow256Values();
    var n :- TakeU(raw, 8);
    Parsed(n.value, n.rest)
  }

  function TakeU128(raw: Bytes): (r: Parsed<u128>)
    ensures r.Parsed? ==> raw == PutU(r.value, 16, r.rest)
  {
    Pow256Values();
    var n :- TakeU(raw, 16);
    Parsed(n.value, n.rest)
  }

  lemma U16RoundTrip(n: u16, rest: Bytes)
    ensures TakeU16(PutU(n, 2, rest)) == Parsed(n, rest)
  {
    Pow256Values();
    URoundTrip(n, 2, rest);
  }

  lemma U32RoundTrip(n: u32, rest: Bytes)
    ensures TakeU32(PutU(n, 4, rest)) == Parsed(n, rest)
  {
    Pow256Values();
    URoundTrip(n, 4, rest);
  }

  lemma U64RoundTrip(n: u64, rest: Bytes)
    ensures TakeU64(PutU(n, 8, rest)) == Parsed(n, rest)
  {
    Pow256Values();
    URoundTrip(n, 8, rest);
  }

  lemma U128RoundTrip(n: u128, rest: Bytes)
    ensures TakeU128(PutU(n, 16, rest)) == Parsed(n, rest)
  {
    Pow256Values();
    URoundTrip(n, 16, rest);
  }

  function PutI64(i: i64, rest: Bytes): Bytes {
    PutU(ToUnsigned(i), 8, rest)
  }

  function TakeI64(raw: Bytes): (r: Parsed<i64>)
    ensures r.Parsed? ==> raw == PutI64(r.value, r.rest)
  {
    var n :- TakeU64(raw);
    Parsed(ToSigned(n.value), n.rest)
  }

  lemma I64RoundTrip(i: i64, rest: Bytes)
    ensures TakeI64(PutI64(i, rest)) == Parsed(i, rest)
  {
    U64RoundTrip(ToUnsigned(i), rest);
  }

  // ---- Booleans, floats and optional values ----

  function PutBool(b: bool, rest: Bytes): Bytes {
    PutByte(if b then 1 else 0, rest)
  }

  function TakeBool(raw: Bytes): (r: Parsed<bool>)
    ensures r.Parsed? ==> raw == PutBool(r.value, r.rest)
  {
    var b :- TakeByte(raw);
    if b.value == 0 then Parsed(false, b.rest)
    else if b.value == 1 then Parsed(true, b.rest)
    else Rejected
  }

  lemma BoolRoundTrip(b: bool, rest: Bytes)
    ensures TakeBool(PutBool(b, rest)) == Parsed(b, rest)
  {
  }

  // Only finite floats travel.
  function TakeF64(raw: Bytes): (r: Parsed<u64>)
    ensures r.Parsed? ==> IsFinite(r.value) && raw == PutU(r.value, 8, r.rest)
  {
    var n :- TakeU64(raw);
    if IsFinite(n.value) then n else Rejected
  }

  lemma F64RoundTrip(n: u64, rest: Bytes)
    requires IsFinite(n)
    ensures TakeF64(PutU(n, 8, rest)) == Parsed(n, rest)
  {
    U64RoundTrip(n, rest);
  }

  function PutOptionU64(o: Option<u64>, rest: Bytes): (r: Bytes)
    ensures |r| == (if o.Some? then 9 else 1) + |rest|
  {
    match o
    case None => PutByte(0, rest)
    case Some(n) => PutByte(1, PutU(n, 8, rest))
  }

  function PutOptionU128(o: Option<u128>, rest: Bytes): Bytes {
    match o
    case None => PutByte(0, rest)
    case Some(n) => PutByte(1, PutU(n, 16, rest))
  }

  function PutOptionI64(o: Option<i64>, rest: Bytes): Bytes {
    match o
    case None => PutByte(0, rest)
    case Some(i) => PutByte(1, PutI64(i, rest))
  }

  function TakeWatermark(raw: Bytes): (r: Parsed<Option<u64>>)
    ensures r.Parsed? ==> raw == PutOptionU64(r.value, r.rest)
  {
    var present :- TakeByte(raw);
    if present.value == 0 then Parsed(None, present.rest)
    else if present.value == 1 then
      var n :- TakeU64(present.rest);
      Parsed(Some(n.value), n.rest)
    else Rejected
  }

  function TakeOptionU128(raw: Bytes): (r: Parsed<Option<u128>>)
    ensures r.Parsed? ==> raw == PutOptionU128(r.value, r.rest)
  {
    var present :- TakeByte(raw);
    if present.value == 0 then Parsed(None, present.rest)
    else if present.value == 1 then
      var n :- TakeU128(present.rest);
      Parsed(Some(n.value), n.rest)
    else Rejected
  }

  function TakeOptionI64(raw: Bytes): (r: Parsed<Option<i64>>)
    ensures r.Parsed? ==> raw == PutOptionI64(r.value, r.rest)
  {
    var present :- TakeByte(raw);
    if present.value == 0 then Parsed(None, present.rest)
    else if present.value == 1 then
      var i :- TakeI64(present.rest);
      Parsed(Some(i.value), i.rest)
    else Rejected
  }

  predicate FiniteOption(o: Option<u64>) {
    o.Some? ==> IsFinite(o.value)
  }

  function TakeOptionF64(raw: Bytes): (r: Parsed<Option<u64>>)
    ensures r.Parsed? ==> FiniteOption(r.value) && raw == PutOptionU64(r.value, r.rest)
  {
    var present :- TakeByte(raw);
    if present.value == 0 then Parsed(None, present.rest)
    else if present.value == 1 then
      var n :- TakeF64(present.rest);
      Parsed(Some(n.value), n.rest)
    else Rejected
  }

  lemma WatermarkRoundTrip(o: Option<u64>, rest: Bytes)
    ensures TakeWatermark(PutOptionU64(o, rest)) == Parsed(o, rest)
  {
    hide TakeU64, PutU;
    if o.Some? {
      U64RoundTrip(o.value, rest);
    }
  }

  lemma OptionU128RoundTrip(o: Option<u128>, rest: Bytes)
    ensures TakeOptionU128(PutOptionU128(o, rest)) == Parsed(o, rest)
  {
    hide TakeU128, PutU;
    if o.Some? {
      U128RoundTrip(o.value, rest);
    }
  }

  lemma OptionI64RoundTrip(o: Option<i64>, rest: Bytes)
    ensures TakeOptionI64(PutOptionI64(o, rest)) == Parsed(o, rest)
  {
    hide TakeI64, PutI64;
    if o.Some? {
      I64RoundTrip(o.value, rest);
    }
  }

  lemma OptionF64RoundTrip(o: Option<u64>, rest: Bytes)
    requires FiniteOption(o)
    ensures TakeOptionF64(PutOptionU64(o, rest)) == Parsed(o, rest)
  {
    hide TakeF64, PutU;
    if o.Some? {
      F64RoundTrip(o.value, rest);
    }
  }

  // ---- Text ----

  // Length limits count encoded bytes; none exceeds a `u16`.
  predicate TextFits(s: string, least: nat, most: u16) {
    least <= |Utf8.Encode(s)| <= most
  }

  function PutText(s: string, rest: Bytes): Bytes {
    PutU(|Utf8.Encode(s)|, 2, Utf8.Encode(s) + rest)
  }

  function TakeText(raw: Bytes, least: nat, most: u16): (r: Parsed<string>)
    ensures r.Parsed? ==> TextFits(r.value, least, most) && raw == PutText(r.value, r.rest)
  {
    var n :- TakeU16(raw);
    if n.value < least || n.value > most || n.value > |n.rest| then Rejected
    else match Utf8.Decode(n.rest[..n.value])
      case None => Rejected
      case Some(s) =>
        Utf8.EncodeOfDecode(n.rest[..n.value]);
        assert n.rest == n.rest[..n.value] + n.rest[n.value..];
        Parsed(s, n.rest[n.value..])
  }

  lemma TextRoundTrip(s: string, least: nat, most: u16, rest: Bytes)
    requires TextFits(s, least, most)
    ensures TakeText(PutText(s, rest), least, most) == Parsed(s, rest)
  {
    hide Utf8.Encode, Utf8.Decode, TakeU16, PutU;
    var bytes := Utf8.Encode(s);
    U16RoundTrip(|bytes|, bytes + rest);
    TakeDrop(bytes, rest);
    Utf8.DecodeOfEncode(s);
  }

  // ---- Lists ----

  function PutMany<T>(put: (T, Bytes) -> Bytes, vs: seq<T>, rest: Bytes): Bytes {
    if vs == [] then rest else put(vs[0], PutMany(put, vs[1..], rest))
  }

  function TakeMany<T>(take: Bytes -> Parsed<T>, n: nat, raw: Bytes): (r: Parsed<seq<T>>)
    ensures r.Parsed? ==> |r.value| == n
  {
    if n == 0 then Parsed([], raw)
    else
      var first :- take(raw);
      var others :- TakeMany(take, n - 1, first.rest);
      Parsed([first.value] + others.value, others.rest)
  }

  lemma {:induction false} ManyRoundTrip<T(!new)>(fits: T -> bool, put: (T, Bytes) -> Bytes, take: Bytes -> Parsed<T>,
                                                   vs: seq<T>, rest: Bytes)
    requires Inverse(fits, put, take) && forall v <- vs :: fits(v)
    ensures TakeMany(take, |vs|, PutMany(put, vs, rest)) == Parsed(vs, rest)
  {
    if vs != [] {
      ManyRoundTrip(fits, put, take, vs[1..], rest);
      assert vs[0] in vs;
      assert vs == [vs[0]] + vs[1..];
    }
  }

  lemma {:induction false} ManyCanonical<T(!new)>(fits: T -> bool, put: (T, Bytes) -> Bytes, take: Bytes -> Parsed<T>,
                                                   n: nat, raw: Bytes)
    requires Inverse(fits, put, take) && TakeMany(take, n, raw).Parsed?
    ensures var r := TakeMany(take, n, raw);
            |r.value| == n && (forall v <- r.value :: fits(v)) && raw == PutMany(put, r.value, r.rest)
  {
    if n > 0 {
      var first := take(raw);
      ManyCanonical(fits, put, take, n - 1, first.rest);
      var others := TakeMany(take, n - 1, first.rest);
      assert ([first.value] + others.value)[1..] == others.value;
    }
  }

  // A counted list.
  function PutCollection<T>(put: (T, Bytes) -> Bytes, vs: seq<T>, rest: Bytes): Bytes {
    PutU(|vs|, 4, PutMany(put, vs, rest))
  }

  function TakeCollection<T>(take: Bytes -> Parsed<T>, most: u32, raw: Bytes): (r: Parsed<seq<T>>)
    ensures r.Parsed? ==> |r.value| <= most
  {
    var n :- TakeU32(raw);
    if n.value > most then Rejected else TakeMany(take, n.value, n.rest)
  }

  lemma CollectionRoundTrip<T(!new)>(fits: T -> bool, put: (T, Bytes) -> Bytes, take: Bytes -> Parsed<T>,
                                     most: u32, vs: seq<T>, rest: Bytes)
    requires Inverse(fits, put, take) && |vs| <= most && forall v <- vs :: fits(v)
    ensures TakeCollection(take, most, PutCollection(put, vs, rest)) == Parsed(vs, rest)
  {
    hide TakeU32, PutU, PutMany, TakeMany;
    U32RoundTrip(|vs|, PutMany(put, vs, rest));
    ManyRoundTrip(fits, put, take, vs, rest);
  }

  lemma CollectionCanonical<T(!new)>(fits: T -> bool, put: (T, Bytes) -> Bytes, take: Bytes -> Parsed<T>,
                                     most: u32, raw: Bytes)
    requires Inverse(fits, put, take)
    ensures var r := TakeCollection(take, most, raw);
            r.Parsed? ==>
              |r.value| <= most && (forall v <- r.value :: fits(v)) && raw == PutCollection(put, r.value, r.rest)
  {
    hide TakeU32, PutU, PutMany, TakeMany;
    var n := TakeU32(raw);
    if n.Parsed? && TakeMany(take, n.value, n.rest).Parsed? {
      ManyCanonical(fits, put, take, n.value, n.rest);
    }
  }

  // ---- Maps: entries in ascending key order ----

  const MAX_KEY_BYTES: u16 := 256

  ghost predicate EntriesFit<V>(fits: V -> bool, es: Entries<V>) {
    forall i :: 0 <= i < |es| ==> TextFits(es[i].0, 1, MAX_KEY_BYTES) && fits(es[i].1)
  }

  function PutEntries<V>(put: (V, Bytes) -> Bytes, es: Entries<V>, rest: Bytes): Bytes {
    if es == [] then rest else PutText(es[0].0, put(es[0].1, PutEntries(put, es[1..], rest)))
  }

  predicate Follows(previous: Option<string>, key: string) {
    previous.Some? ==> Utf8.Before(previous.value, key)
  }

  function TakeEntries<V>(take: Bytes -> Parsed<V>, n: nat, previous: Option<string>, raw: Bytes): Parsed<Entries<V>>
    decreases n
  {
    if n == 0 then Parsed([], raw)
    else
      var key :- TakeText(raw, 1, MAX_KEY_BYTES);
      if !Follows(previous, key.value) then Rejected
      else
        var value :- take(key.rest);
        var others :- TakeEntries(take, n - 1, Some(key.value), value.rest);
        Parsed([(key.value, value.value)] + others.value, others.rest)
  }

  lemma {:induction false} EntriesRoundTrip<V(!new)>(
      fits: V -> bool, put: (V, Bytes) -> Bytes, take: Bytes -> Parsed<V>,
      es: Entries<V>, previous: Option<string>, rest: Bytes)
    requires Inverse(fits, put, take) && EntriesFit(fits, es) && Ascending(es)
    requires es != [] ==> Follows(previous, es[0].0)
    ensures TakeEntries(take, |es|, previous, PutEntries(put, es, rest)) == Parsed(es, rest)
    decreases |es|
  {
    hide TakeText, PutText, Utf8.Before, TextFits;
    if es != [] {
      var others := PutEntries(put, es[1..], rest);
      TextRoundTrip(es[0].0, 1, MAX_KEY_BYTES, put(es[0].1, others));
      EntriesRoundTrip(fits, put, take, es[1..], Some(es[0].0), rest);
      assert es == [es[0]] + es[1..];
    }
  }

  lemma {:induction false} EntriesCanonical<V(!new)>(
      fits: V -> bool, put: (V, Bytes) -> Bytes, take: Bytes -> Parsed<V>,
      n: nat, previous: Option<string>, raw: Bytes)
    requires Inverse(fits, put, take) && TakeEntries(take, n, previous, raw).Parsed?
    ensures var r := TakeEntries(take, n, previous, raw);
            && |r.value| == n && EntriesFit(fits, r.value) && Ascending(r.value)
            && (forall i :: 0 <= i < n ==> Follows(previous, r.value[i].0))
            && raw == PutEntries(put, r.value, r.rest)
    decreases n
  {
    hide TakeText, PutText, Utf8.Before, TextFits;
    if n > 0 {
      var key := TakeText(raw, 1, MAX_KEY_BYTES);
      var value := take(key.rest);
      EntriesCanonical(fits, put, take, n - 1, Some(key.value), value.rest);
      var others := TakeEntries(take, n - 1, Some(key.value), value.rest);
      var es := TakeEntries(take, n, previous, raw).value;
      assert es[1..] == others.value;
      FollowsAll(previous, es);
    }
  }

  // Entries that follow the first, which follows `previous`, all follow `previous`.
  lemma FollowsAll<V>(previous: Option<string>, es: Entries<V>)
    requires es != [] && Follows(previous, es[0].0)
    requires forall i :: 0 <= i < |es| - 1 ==> Follows(Some(es[0].0), es[1..][i].0)
    ensures forall i :: 0 <= i < |es| ==> Follows(previous, es[i].0)
    ensures Ascending(es[1..]) ==> Ascending(es)
  {
    hide Utf8.Before;
    forall i | 0 <= i < |es| ensures Follows(previous, es[i].0) && (0 < i ==> Utf8.Before(es[0].0, es[i].0)) {
      if i > 0 {
        assert es[1..][i - 1] == es[i];
        if previous.Some? {
          Utf8.BeforeTransitive(previous.value, es[0].0, es[i].0);
        }
      }
    }
    forall i, j | Ascending(es[1..]) && 0 <= i < j < |es| ensures Utf8.Before(es[i].0, es[j].0) {
      if i > 0 {
        assert es[1..][i - 1] == es[i] && es[1..][j - 1] == es[j];
      }
    }
  }

  // A whole map: its size, then its listing.
  ghost predicate MapFits<V>(fits: V -> bool, most: u32, m: map<string, V>) {
    |m| <= most && forall k <- m :: TextFits(k, 1, MAX_KEY_BYTES) && fits(m[k])
  }

  ghost function PutMap<V>(put: (V, Bytes) -> Bytes, m: map<string, V>, rest: Bytes): Bytes {
    PutU(|m|, 4, PutEntries(put, Listing(m), rest))
  }

  function TakeMap<V>(take: Bytes -> Parsed<V>, most: u32, raw: Bytes): Parsed<map<string, V>> {
    var n :- TakeU32(raw);
    if n.value > most then Rejected
    else
      var es :- TakeEntries(take, n.value, None, n.rest);
      Parsed(ToMap(es.value), es.rest)
  }

  lemma MapRoundTrip<V(!new)>(fits: V -> bool, put: (V, Bytes) -> Bytes, take: Bytes -> Parsed<V>,
                              most: u32, m: map<string, V>, rest: Bytes)
    requires Inverse(fits, put, take) && MapFits(fits, most, m)
    ensures TakeMap(take, most, PutMap(put, m, rest)) == Parsed(m, rest)
  {
    hide TakeU32, PutU, PutEntries, TakeEntries, Listing, ToMap, Ascending, Inverse, TextFits;
    var es := Listing(m);
    ListingOfMap(m);
    ListingEntries(m);
    U32RoundTrip(|m|, PutEntries(put, es, rest));
    EntriesRoundTrip(fits, put, take, es, None, rest);
  }

  lemma MapCanonical<V(!new)>(fits: V -> bool, put: (V, Bytes) -> Bytes, take: Bytes -> Parsed<V>,
                              most: u32, raw: Bytes)
    requires Inverse(fits, put, take) && TakeMap(take, most, raw).Parsed?
    ensures var r := TakeMap(take, most, raw); MapFits(fits, most, r.value) && raw == PutMap(put, r.value, r.rest)
  {
    hide TakeU32, PutU, PutEntries, TakeEntries, Listing, ToMap, Ascending, Inverse, TextFits;
    var n := TakeU32(raw);
    EntriesCanonical(fits, put, take, n.value, None, n.rest);
    var es := TakeEntries(take, n.value, None, n.rest).value;
    ListingOfEntries(es);
    ListingEntries(ToMap(es));
    ToMapKeys(es);
  }
}

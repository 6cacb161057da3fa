/**
The cursor that decodes wire payloads, and the loops over maps and lists.

`Input` holds the bytes not yet read; each method agrees with the `Take…` function of the same
field, which in turn is the exact inverse of what is written.
*/
module WireInput {
  import opened ByteCodec
  import opened Model
  import opened SortedMaps
  import opened WireFields
  import opened WireRecords
  import opened WireProtocol
  import Utf8

  // The rest of a loop, put behind what it has read, is the whole of it.
  ghost predicate Extends<T>(whole: Parsed<seq<T>>, done: seq<T>, left: Parsed<seq<T>>) {
    whole == if left.Parsed? then Parsed(done + left.value, left.rest) else Rejected
  }

  lemma ExtendsEnds<T>(whole: Parsed<seq<T>>, done: seq<T>, raw: Bytes)
    ensures Extends(whole, [], whole)
    ensures Extends(whole, done, Parsed([], raw)) ==> whole == Parsed(done, raw)
  {
    if whole.Parsed? {
      assert [] + whole.value == whole.value;
    }
    assert done + [] == done;
  }

  // One entry more, after its key and value were read.
  lemma EntryStep<V>(take: Bytes -> Parsed<V>, n: nat, previous: Option<string>, raw: Bytes,
                     whole: Parsed<Entries<V>>, done: Entries<V>)
    requires n > 0 && Extends(whole, done, TakeEntries(take, n, previous, raw))
    ensures var key := TakeText(raw, 1, MAX_KEY_BYTES);
            if key.Rejected? || !Follows(previous, key.value) || take(key.rest).Rejected? then whole.Rejected?
            else
              var value := take(key.rest);
              Extends(whole, done + [(key.value, value.value)],
                      TakeEntries(take, n - 1, Some(key.value), value.rest))
  {
    hide TakeText, Follows;
    var key := TakeText(raw, 1, MAX_KEY_BYTES);
    if key.Parsed? && take(key.rest).Parsed? {
      var value := take(key.rest);
      var left := TakeEntries(take, n - 1, Some(key.value), value.rest);
      if left.Parsed? {
        var entry := [(key.value, value.value)];
        assert done + (entry + left.value) == done + entry + left.value;
      }
    }
  }

  lemma ItemStep<T>(take: Bytes -> Parsed<T>, n: nat, raw: Bytes, whole: Parsed<seq<T>>, done: seq<T>)
    requires n > 0 && Extends(whole, done, TakeMany(take, n, raw))
    ensures var item := take(raw);
            if item.Rejected? then whole.Rejected?
            else Extends(whole, done + [item.value], TakeMany(take, n - 1, item.rest))
  {
    var item := take(raw);
    if item.Parsed? {
      var left := TakeMany(take, n - 1, item.rest);
      if left.Parsed? {
        assert done + ([item.value] + left.value) == done + [item.value] + left.value;
      }
    }
  }

  class Input {
    var rest: Bytes

    constructor (bytes: Bytes)
      ensures rest == bytes
    {
      rest := bytes;
    }

    // A method's outcome is the function's: the same value and the same bytes left, or a refusal.
    ghost predicate Agrees<T>(parsed: Parsed<T>, r: Option<T>)
      reads this
    {
      parsed.Parsed? == r.Some? && (r.Some? ==> parsed == Parsed(r.value, rest))
    }

    method Take(n: nat) returns (r: Option<Bytes>)
      modifies this
      ensures r.Some? <==> n <= |old(rest)|
      ensures r.Some? ==> |r.value| == n && old(rest) == r.value + rest
      ensures r.None? ==> rest == old(rest)
    {
      if n > |rest| {
        return None;
      }
      r := Some(rest[..n]);
      rest := rest[n..];
    }

    method Unsigned(w: nat) returns (r: Option<nat>)
      modifies this
      ensures Agrees(TakeU(old(rest), w), r)
      ensures r.Some? ==> r.value < Pow256(w)
    {
      var bytes := Take(w);
      if bytes.None? {
        return None;
      }
      r := Some(FromBE(bytes.value));
      assert old(rest)[..w] == bytes.value;
    }

    method Byte() returns (r: Option<byte>)
      modifies this
      ensures Agrees(TakeByte(old(rest)), r)
    {
      var bytes := Take(1);
      if bytes.None? {
        return None;
      }
      r := Some(bytes.value[0]);
    }

    method Bool() returns (r: Option<bool>)
      modifies this
      ensures Agrees(TakeBool(old(rest)), r)
    {
      var b := Byte();
      if b.None? || b.value > 1 {
        return None;
      }
      r := Some(b.value == 1);
    }

    method U16() returns (r: Option<u16>)
      modifies this
      ensures Agrees(TakeU16(old(rest)), r)
    {
      Pow256Values();
      r := Unsigned(2);
    }

    method U64() returns (r: Option<u64>)
      modifies this
      ensures Agrees(TakeU64(old(rest)), r)
    {
      Pow256Values();
      r := Unsigned(8);
    }

    method I64() returns (r: Option<i64>)
      modifies this
      ensures Agrees(TakeI64(old(rest)), r)
    {
      hide TakeU64;
      var n := U64();
      if n.None? {
        return None;
      }
      r := Some(ToSigned(n.value));
    }

    method F64() returns (r: Option<u64>)
      modifies this
      ensures Agrees(TakeF64(old(rest)), r)
    {
      hide TakeU64;
      r := U64();
      if r.Some? && !IsFinite(r.value) {
        r := None;
      }
    }

    method U32() returns (r: Option<u32>)
      modifies this
      ensures Agrees(TakeU32(old(rest)), r)
    {
      Pow256Values();
      r := Unsigned(4);
    }

    method Count(most: u32) returns (r: Option<u32>)
      modifies this
      ensures r.Some? <==> TakeU32(old(rest)).Parsed? && TakeU32(old(rest)).value <= most
      ensures r.Some? ==> TakeU32(old(rest)) == Parsed(r.value, rest)
    {
      hide TakeU32;
      r := U32();
      if r.Some? && r.value > most {
        r := None;
      }
    }

    method Text(least: nat, most: u16) returns (r: Option<string>)
      modifies this
      ensures Agrees(TakeText(old(rest), least, most), r)
    {
      hide TakeU16, TextFits, PutText, Utf8.Decode;
      var n := U16();
      if n.None? || n.value < least || n.value > most {
        return None;
      }
      label Sized:
      var bytes := Take(n.value);
      if bytes.None? {
        return None;
      }
      assert old@Sized(rest)[..n.value] == bytes.value && old@Sized(rest)[n.value..] == rest;
      r := Utf8.Decode(bytes.value);
    }

    method Value() returns (r: Option<PropertyValue>)
      modifies this
      ensures Agrees(TakeValue(old(rest)), r)
    {
      hide TakeBool, TakeI64, TakeF64, TakeText, ValueFits, PutValue;
      var tag := Byte();
      if tag.None? {
        return None;
      }
      match tag.value {
        case 0 => r := Some(Null);
        case 1 =>
          var flag := Bool();
          r := if flag.Some? then Some(PropertyValue.Bool(flag.value)) else None;
        case 2 =>
          var number := I64();
          r := if number.Some? then Some(Integer(number.value)) else None;
        case 3 =>
          var bits := F64();
          r := if bits.Some? then Some(Float(bits.value)) else None;
        case 4 =>
          var text := Text(0, MAX_TEXT_BYTES);
          r := if text.Some? then Some(PropertyValue.Text(text.value)) else None;
        case _ => r := None;
      }
    }

    // Keys must ascend, so that one map has one byte form.
    method Properties() returns (r: Option<Model.Properties>)
      modifies this
      ensures Agrees(TakeProperties(old(rest)), r)
    {
      hide TakeU32, TakeEntries, TakeText, TakeValue, Follows, PropertiesFit, PutProperties, PutText, TextFits, ToMap;
      var count := Count(MAX_PROPERTIES);
      if count.None? {
        return None;
      }
      ghost var whole := TakeEntries(TakeValue, count.value, None, rest);
      ghost var done := [];
      var values: Model.Properties := map[];
      var previous: Option<string> := None;
      NoEntries(TakeValue, previous, rest);
      ExtendsEnds(whole, done, rest);
      for i := 0 to count.value
        invariant values == ToMap(done)
        invariant Extends(whole, done, TakeEntries(TakeValue, count.value - i, previous, rest))
      {
        EntryStep(TakeValue, count.value - i, previous, rest, whole, done);
        var key := Text(1, MAX_KEY_BYTES);
        if key.None? || !Follows(previous, key.value) {
          return None;
        }
        previous := Some(key.value);
        var value := Value();
        if value.None? {
          return None;
        }
        Inserted(done, key.value, value.value);
        values := values[key.value := value.value];
        done := done + [(key.value, value.value)];
      }
      NoEntries(TakeValue, previous, rest);
      ExtendsEnds(whole, done, rest);
      r := Some(values);
    }

    method ObjectiveTerms() returns (r: Option<map<string, u64>>)
      modifies this
      ensures Agrees(TakeTerms(old(rest)), r)
    {
      hide TakeU32, TakeEntries, TakeText, TakeF64, Follows, TermsFit, PutTerms, PutText, TextFits, ToMap;
      var count := Count(MAX_PROPERTIES);
      if count.None? {
        return None;
      }
      ghost var whole := TakeEntries(TakeF64, count.value, None, rest);
      ghost var done := [];
      var terms: map<string, u64> := map[];
      var previous: Option<string> := None;
      NoEntries(TakeF64, previous, rest);
      ExtendsEnds(whole, done, rest);
      for i := 0 to count.value
        invariant terms == ToMap(done)
        invariant Extends(whole, done, TakeEntries(TakeF64, count.value - i, previous, rest))
      {
        EntryStep(TakeF64, count.value - i, previous, rest, whole, done);
        var key := Text(1, MAX_KEY_BYTES);
        if key.None? || !Follows(previous, key.value) {
          return None;
        }
        previous := Some(key.value);
        var value := F64();
        if value.None? {
          return None;
        }
        Inserted(done, key.value, value.value);
        terms := terms[key.value := value.value];
        done := done + [(key.value, value.value)];
      }
      NoEntries(TakeF64, previous, rest);
      ExtendsEnds(whole, done, rest);
      r := Some(terms);
    }

    // `take` decodes one record off the front.
    method Repeated<T>(n: nat, take: Bytes -> Parsed<T>) returns (r: Option<seq<T>>)
      modifies this
      ensures Agrees(TakeMany(take, n, old(rest)), r)
    {
      ghost var whole := TakeMany(take, n, rest);
      var values := [];
      ExtendsEnds(whole, values, rest);
      for i := 0 to n
        invariant Extends(whole, values, TakeMany(take, n - i, rest))
      {
        ItemStep(take, n - i, rest, whole, values);
        var value := take(rest);
        if value.Rejected? {
          return None;
        }
        values := values + [value.value];
        rest := value.rest;
      }
      ExtendsEnds(whole, values, rest);
      r := Some(values);
    }

    method Collection<T>(most: u32, take: Bytes -> Parsed<T>) returns (r: Option<seq<T>>)
      modifies this
      ensures Agrees(TakeCollection(take, most, old(rest)), r)
    {
      hide TakeU32, TakeMany;
      var count := Count(most);
      if count.None? {
        return None;
      }
      r := Repeated(count.value, take);
    }

    // Refuses before reading a point unless the points are exactly what is left.
    method Points() returns (r: Option<seq<Point>>)
      modifies this
      ensures Agrees(TakePoints(old(rest)), r)
    {
      hide TakeU32, TakeMany, TakePoint, PutCollection, PutPoint, PutMany;
      var count := Count(MAX_BATCH_POINTS);
      if count.None? || |rest| != count.value * 72 {
        return None;
      }
      r := Repeated(count.value, TakePoint);
    }
  }

  lemma NoEntries<V>(take: Bytes -> Parsed<V>, previous: Option<string>, raw: Bytes)
    ensures TakeEntries(take, 0, previous, raw) == Parsed([], raw) && ToMap<V>([]) == map[]
  {
  }

  lemma Inserted<V>(es: Entries<V>, key: string, value: V)
    ensures ToMap(es + [(key, value)]) == ToMap(es)[key := value]
  {
    assert (es + [(key, value)])[..|es|] == es;
  }

  // ---- Writing ----

  // A field's bytes do not depend on what follows.
  lemma PutTextSplits(s: string, rest: Bytes)
    ensures PutText(s, rest) == PutText(s, []) + rest
  {
    hide Utf8.Encode, BE;
    var bytes := Utf8.Encode(s);
    assert bytes + [] == bytes;
    assert BE(|bytes|, 2) + (bytes + rest) == BE(|bytes|, 2) + bytes + rest;
  }

  lemma PutValueSplits(v: PropertyValue, rest: Bytes)
    ensures PutValue(v, rest) == PutValue(v, []) + rest
  {
    hide BE;
    match v
    case Text(text) => PutTextSplits(text, rest);
    case Integer(number) => assert BE(ToUnsigned(number), 8) + [] + rest == BE(ToUnsigned(number), 8) + rest;
    case Float(bits) => assert BE(bits, 8) + [] + rest == BE(bits, 8) + rest;
    case _ =>
  }

  lemma {:induction false} PutEntriesSnoc(es: Entries<PropertyValue>, key: string, value: PropertyValue)
    ensures PutEntries(PutValue, es + [(key, value)], []) ==
            PutEntries(PutValue, es, []) + (PutText(key, []) + PutValue(value, []))
  {
    hide PutText, PutValue;
    var more := es + [(key, value)];
    var last := PutText(key, []) + PutValue(value, []);
    if es == [] {
      PutTextSplits(key, PutValue(value, []));
      assert more[1..] == [];
    } else {
      PutEntriesSnoc(es[1..], key, value);
      assert more[1..] == es[1..] + [(key, value)];
      var before, after := PutEntries(PutValue, es[1..], []), PutEntries(PutValue, more[1..], []);
      var (k, v) := es[0];
      PutValueSplits(v, before);
      PutValueSplits(v, after);
      PutTextSplits(k, PutValue(v, before));
      PutTextSplits(k, PutValue(v, after));
      assert PutText(k, []) + (PutValue(v, []) + (before + last)) == PutText(k, []) + (PutValue(v, []) + before) + last;
    }
  }

  method AppendText(o: Bytes, s: string, least: nat, most: u16) returns (r: Option<Bytes>)
    ensures r == if TextFits(s, least, most) then Some(o + PutText(s, [])) else None
  {
    var bytes := Utf8.Encode(s);
    if |bytes| < least || |bytes| > most {
      return None;
    }
    r := Some(o + BE(|bytes|, 2) + bytes);
    assert o + BE(|bytes|, 2) + bytes == o + (BE(|bytes|, 2) + (bytes + []));
  }

  method AppendValue(o: Bytes, v: PropertyValue) returns (r: Option<Bytes>)
    ensures r == if ValueFits(v) then Some(o + PutValue(v, [])) else None
  {
    hide BE, TextFits, PutText, IsFinite;
    match v {
      case Null =>
        r := Some(o + [0]);
        assert [0] + [] == [0];
      case Bool(flag) =>
        var b := if flag then 1 else 0;
        r := Some(o + [1, b]);
        assert [1] + ([b] + []) == [1, b];
      case Integer(number) =>
        var bytes := BE(ToUnsigned(number), 8);
        r := Some(o + [2] + bytes);
        assert o + [2] + bytes == o + ([2] + (bytes + []));
      case Float(bits) =>
        var bytes := BE(bits, 8);
        r := if IsFinite(bits) then Some(o + [3] + bytes) else None;
        assert o + [3] + bytes == o + ([3] + (bytes + []));
      case Text(text) =>
        r := AppendText(o + [4], text, 0, MAX_TEXT_BYTES);
        assert o + [4] + PutText(text, []) == o + ([4] + PutText(text, []));
    }
  }

  // `entries` is the map's own iteration order.
  method AppendProperties(o: Bytes, values: Model.Properties, entries: Entries<PropertyValue>) returns (r: Option<Bytes>)
    requires entries == Listing(values)
    ensures r == if PropertiesFit(values) then Some(o + PutProperties(values, [])) else None
  {
    hide Listing, PutText, PutValue, ValueFits, TextFits, PutEntries, ToMap, BE;
    ListingFits(values);
    if |entries| > MAX_PROPERTIES {
      return None;
    }
    var out := o + BE(|entries|, 4);
    assert entries[..0] == [];
    assert PutEntries(PutValue, [], []) == [] by { NothingWritten(); }
    for i := 0 to |entries|
      invariant out == o + PutU(|entries|, 4, PutEntries(PutValue, entries[..i], []))
      invariant EntriesFit(ValueFits, entries[..i])
    {
      var (key, value) := entries[i];
      assert entries[..i + 1] == entries[..i] + [(key, value)];
      PutEntriesSnoc(entries[..i], key, value);
      var named := AppendText(out, key, 1, MAX_KEY_BYTES);
      if named.None? {
        return None;
      }
      var valued := AppendValue(named.value, value);
      if valued.None? {
        return None;
      }
      out := valued.value;
    }
    assert entries[..|entries|] == entries;
    r := Some(out);
  }

  lemma NothingWritten()
    ensures PutEntries(PutValue, [], []) == []
  {
  }

  // A map may be written exactly when its entries may.
  lemma ListingFits(m: Model.Properties)
    ensures PropertiesFit(m) <==> |Listing(m)| <= MAX_PROPERTIES && EntriesFit(ValueFits, Listing(m))
  {
    hide Listing, ToMap, ValueFits, TextFits, Ascending;
    var es := Listing(m);
    ListingOfMap(m);
    ListingEntries(m);
    ToMapKeys(es);
    if EntriesFit(ValueFits, es) {
      forall k <- m ensures TextFits(k, 1, MAX_KEY_BYTES) && ValueFits(m[k]) {
        var i :| 0 <= i < |es| && es[i].0 == k;
      }
    }
  }
}

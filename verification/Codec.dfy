/** The encoder and decoder as they run: an output buffer that grows, a slice that advances, a budget that is charged. */
module Codec {
  import opened Wrappers
  import opened BigEndian
  import opened PackStream
  import opened PackStreamTheorems
  import opened WireFormat
  import opened WireTheorems

  class ByteBuffer {
    var bytes: seq<byte>

    constructor ()
      ensures bytes == []
    {
      bytes := [];
    }

    method PutSlice(s: seq<byte>)
      modifies this
      ensures bytes == old(bytes) + s
    {
      bytes := bytes + s;
    }
  }

  /** Append the encoding of a value; containers too large for their header are refused. */
  method EncodeInto(out: ByteBuffer, v: Value) returns (ok: bool)
    requires WellFormed(v)
    modifies out
    ensures ok <==> Encodable(v)
    ensures ok ==> out.bytes == old(out.bytes) + Encode(v)
    ensures ok && Weigh(v).longest <= U32_MAX ==> Reads(out.bytes[|old(out.bytes)|..], v, [])
    ensures old(out.bytes) <= out.bytes
    decreases v, 1
  {
    hide Weigh, Reads, EncodeInt, EncodeString, EncodeItems, EncodeEntries, ValidUtf8, KeysAscend;
    ok := EncodeParts(out, v);
    if ok && Weigh(v).longest <= U32_MAX {
      EncodeReads(v, []);
      assert out.bytes[|old(out.bytes)|..] == Encode(v) + [];
    }
  }

  method EncodeParts(out: ByteBuffer, v: Value) returns (ok: bool)
    requires WellFormed(v)
    modifies out
    ensures ok <==> Encodable(v)
    ensures ok ==> out.bytes == old(out.bytes) + Encode(v)
    ensures old(out.bytes) <= out.bytes
    decreases v, 0
  {
    hide Header, EncodeInt, EncodeString, EncodeItems, EncodeEntries, ValidUtf8, KeysAscend, U64;
    ok := true;
    match v
    case Null => out.PutSlice([0xC0]);
    case Bool(b) => out.PutSlice(if b then [0xC3] else [0xC2]);
    case Int(n) => out.PutSlice(EncodeInt(n));
    case Float(bits) => out.PutSlice([0xC1] + U64(bits));
    case String(s) => out.PutSlice(EncodeString(s));
    case Bytes(data) => out.PutSlice(Header(BytesKind, |data|) + data);
    case List(items) =>
      if |items| > U32_MAX {
        return false;
      }
      out.PutSlice(Header(ListKind, |items|));
      ok := EncodeItemsInto(out, items);
    case Map(entries) =>
      if |entries| > U32_MAX {
        return false;
      }
      out.PutSlice(Header(MapKind, |entries|));
      ok := EncodeEntriesInto(out, entries);
    case Struct(tag, fields) =>
      if |fields| > U16_MAX {
        return false;
      }
      out.PutSlice(Header(StructKind, |fields|) + [tag]);
      ok := EncodeItemsInto(out, fields);
  }

  method EncodeItemsInto(out: ByteBuffer, items: seq<Value>) returns (ok: bool)
    requires forall i | 0 <= i < |items| :: WellFormed(items[i])
    modifies out
    ensures ok <==> forall i | 0 <= i < |items| :: Encodable(items[i])
    ensures ok ==> out.bytes == old(out.bytes) + EncodeItems(items)
    ensures old(out.bytes) <= out.bytes
    decreases items, 0
  {
    hide Encode, Encodable, WellFormed;
    for i := 0 to |items|
      invariant forall j | 0 <= j < i :: Encodable(items[j])
      invariant old(out.bytes) <= out.bytes
      invariant out.bytes + EncodeItems(items[i..]) == old(out.bytes) + EncodeItems(items)
    {
      ghost var before := out.bytes;
      ok := EncodeInto(out, items[i]);
      if !ok {
        return;
      }
      assert items[i..][0] == items[i] && items[i..][1..] == items[i + 1..];
      assert before + (Encode(items[i]) + EncodeItems(items[i + 1..])) == (before + Encode(items[i])) + EncodeItems(items[i + 1..]);
    }
    assert items[|items|..] == [];
    ok := true;
  }

  method EncodeEntriesInto(out: ByteBuffer, entries: seq<Entry>) returns (ok: bool)
    requires forall i | 0 <= i < |entries| :: WellFormed(entries[i].value)
    modifies out
    ensures ok <==> forall i | 0 <= i < |entries| :: Encodable(entries[i].value)
    ensures ok ==> out.bytes == old(out.bytes) + EncodeEntries(entries)
    ensures old(out.bytes) <= out.bytes
    decreases entries, 0
  {
    hide Encode, Encodable, WellFormed, EncodeString;
    for i := 0 to |entries|
      invariant forall j | 0 <= j < i :: Encodable(entries[j].value)
      invariant old(out.bytes) <= out.bytes
      invariant out.bytes + EncodeEntries(entries[i..]) == old(out.bytes) + EncodeEntries(entries)
    {
      ghost var before := out.bytes;
      var e := entries[i];
      out.PutSlice(EncodeString(e.key));
      ok := EncodeInto(out, e.value);
      if !ok {
        return;
      }
      assert entries[i..][0] == e && entries[i..][1..] == entries[i + 1..];
      ghost var rest := EncodeEntries(entries[i + 1..]);
      assert before + (EncodeString(e.key) + Encode(e.value) + rest) == ((before + EncodeString(e.key)) + Encode(e.value)) + rest;
    }
    assert entries[|entries|..] == [];
    ok := true;
  }

  /** The unread bytes of a message and the heap charged for what has been read. */
  class Decoder {
    var buf: seq<byte>
    var used: nat
    const limits: Limits

    constructor (message: seq<byte>, maxLen: nat)
      ensures buf == message && used == 0 && limits == ForMessage(|message|, maxLen)
    {
      buf, used, limits := message, 0, ForMessage(|message|, maxLen);
    }

    /** The object is where a decode step says it is. */
    ghost predicate At<T(!new)>(s: Step<T>, r: Result<T, DecodeError>)
      reads this
    {
      match s
      case Got(value, rest, used') => r == Ok(value) && buf == rest && used == used'
      case Fail(error) => r == Err(error)
    }

    /** The length bound, the bytes that must be present, then the heap charge. */
    method AdmitBody(len: nat, wire: nat, heap: nat) returns (r: Result<(), DecodeError>)
      modifies this`used
      ensures At(Admit(limits, old(buf), len, wire, heap, old(used)), r)
    {
      if len > limits.maxLen {
        return Err(TooLarge(len, limits.maxLen));
      }
      if wire > |buf| {
        return Err(UnexpectedEof);
      }
      var next := used + heap;
      if next > limits.maxHeap {
        return Err(DecodedTooLarge(next, limits.maxHeap, limits.wireBytes));
      }
      used := next;
      r := Ok(());
    }

    method Decode(depth: nat) returns (r: Result<Value, DecodeError>)
      modifies this
      ensures At(DecodeInner(limits, depth, old(buf), old(used)), r)
      ensures r.Ok? ==> Reads(old(buf), r.value, buf)
      decreases |buf|, 0, 1
    {
      hide DecodeInner, Reads;
      DecodeReads(limits, depth, buf, used);
      r := DecodeParts(depth);
    }

    method DecodeParts(depth: nat) returns (r: Result<Value, DecodeError>)
      modifies this
      ensures At(DecodeInner(limits, depth, old(buf), old(used)), r)
      decreases |buf|, 0, 0
    {
      hide DecodeHead, DecodeItems, DecodeEntries, ValidUtf8;
      if depth > MAX_NESTING_DEPTH {
        return Err(NestingTooDeep);
      }
      match DecodeHead(buf)
      case BadHead(error) => r := Err(error);
      case Scalar(value, rest) =>
        buf := rest;
        r := Ok(value);
      case Sized(kind, len, rest) =>
        buf := rest;
        match kind
        case StringKind => r := DecodeString(len);
        case BytesKind => r := DecodeBytes(len);
        case ListKind => r := DecodeList(depth, len);
        case MapKind => r := DecodeMap(depth, len);
        case StructKind => r := DecodeStruct(depth, len);
    }

    method DecodeString(len: nat) returns (r: Result<Value, DecodeError>)
      modifies this
      ensures At(DecodeStringBody(limits, len, old(buf), old(used)), r)
    {
      hide ValidUtf8;
      var _ :- AdmitBody(len, len, len);
      if !ValidUtf8(buf[..len]) {
        return Err(InvalidUtf8);
      }
      r := Ok(String(buf[..len]));
      buf := buf[len..];
    }

    method DecodeBytes(len: nat) returns (r: Result<Value, DecodeError>)
      modifies this
      ensures At(DecodeBytesBody(limits, len, old(buf), old(used)), r)
    {
      var _ :- AdmitBody(len, len, len);
      r := Ok(Bytes(buf[..len]));
      buf := buf[len..];
    }

    method DecodeList(depth: nat, len: nat) returns (r: Result<Value, DecodeError>)
      modifies this
      ensures At(DecodeListBody(limits, depth, len, old(buf), old(used)), r)
      decreases |buf|, 2, 0
    {
      hide DecodeItems;
      var _ :- AdmitBody(len, len, VALUE_SLOT_BYTES * len);
      var items :- DecodeAll(depth + 1, len);
      r := Ok(List(items));
    }

    method DecodeStruct(depth: nat, len: nat) returns (r: Result<Value, DecodeError>)
      modifies this
      ensures At(DecodeStructBody(limits, depth, len, old(buf), old(used)), r)
      decreases |buf|, 2, 0
    {
      hide DecodeItems;
      if buf == [] {
        return Err(UnexpectedEof);
      }
      var tag := buf[0];
      buf := buf[1..];
      var _ :- AdmitBody(len, len, VALUE_SLOT_BYTES * len);
      var fields :- DecodeAll(depth + 1, len);
      r := Ok(Struct(tag, fields));
    }

    method DecodeMap(depth: nat, len: nat) returns (r: Result<Value, DecodeError>)
      modifies this
      ensures At(DecodeMapBody(limits, depth, len, old(buf), old(used)), r)
      decreases |buf|, 2, 0
    {
      hide DecodeEntries;
      var _ :- AdmitBody(len, 2 * len, MAP_ENTRY_HEAP_BYTES * len);
      var entries :- DecodePairs(depth + 1, len);
      r := Ok(Map(entries));
    }

    /** The item loop of lists and structs. */
    method DecodeAll(depth: nat, count: nat) returns (r: Result<seq<Value>, DecodeError>)
      modifies this
      ensures At(DecodeItems(limits, depth, count, old(buf), old(used)), r)
      decreases |buf|, 1, count
    {
      hide DecodeInner;
      var items: seq<Value> := [];
      ghost var goal := DecodeItems(limits, depth, count, buf, used);
      assert goal.Got? ==> items + goal.value == goal.value;
      for i := 0 to count
        invariant |buf| <= |old(buf)|
        invariant i > 0 ==> |buf| < |old(buf)|
        invariant goal == Prepend(items, DecodeItems(limits, depth, count - i, buf, used))
      {
        var item :- Decode(depth);
        PrependMore(items, item, DecodeItems(limits, depth, count - i - 1, buf, used));
        items := items + [item];
      }
      assert DecodeItems(limits, depth, 0, buf, used) == Got([], buf, used);
      assert items + [] == items;
      r := Ok(items);
    }

    /** The entry loop of maps: a later value replaces an earlier one of the same key. */
    method DecodePairs(depth: nat, count: nat) returns (r: Result<seq<Entry>, DecodeError>)
      modifies this
      ensures At(DecodeEntries(limits, depth, count, [], old(buf), old(used)), r)
      decreases |buf|, 1, count
    {
      hide DecodeInner, Put;
      var entries: seq<Entry> := [];
      ghost var goal := DecodeEntries(limits, depth, count, [], buf, used);
      for i := 0 to count
        invariant |buf| <= |old(buf)|
        invariant i > 0 ==> |buf| < |old(buf)|
        invariant goal == DecodeEntries(limits, depth, count - i, entries, buf, used)
      {
        var key :- Decode(depth);
        if !key.String? {
          return Err(KeyNotString);
        }
        var value :- Decode(depth);
        entries := Put(entries, key.utf8, value);
      }
      r := Ok(entries);
    }
  }

  ghost function Prepend(items: seq<Value>, s: Step<seq<Value>>): Step<seq<Value>> {
    match s
    case Fail(error) => Fail(error)
    case Got(more, rest, used) => Got(items + more, rest, used)
  }

  lemma PrependMore(items: seq<Value>, item: Value, s: Step<seq<Value>>)
    ensures Prepend(items, Prepend([item], s)) == Prepend(items + [item], s)
  {
    if s.Got? {
      assert items + ([item] + s.value) == (items + [item]) + s.value;
    }
  }

  /** Decode one value from a message body. */
  method DecodeMessage(body: seq<byte>, maxLen: nat) returns (r: Result<(Value, seq<byte>), DecodeError>)
    ensures match DecodeWithLimit(body, maxLen)
            case Got(value, rest, _) => r == Ok((value, rest))
            case Fail(error) => r == Err(error)
  {
    hide DecodeInner;
    var decoder := new Decoder(body, maxLen);
    var value :- decoder.Decode(0);
    r := Ok((value, decoder.buf));
  }
}

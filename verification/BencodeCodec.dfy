/** The codec as it runs: the decoder's loops and the encoder's growing byte buffer, proved against
    the functions of module Bencode. */
module BencodeCodec {
  import opened ByteStrings
  import opened DecimalText
  import opened Dictionaries
  import opened Bencode

  // ----- decoder -----

  /** The result of a list whose first items have already been read. */
  function Prepend(items: seq<Node>, r: Result<seq<Node>>): Result<seq<Node>> {
    match r
    case Err(e) => Err(e)
    case Ok(rest, next) => Ok(items + rest, next)
  }

  method DecodeValue(b: Bytes, pos: nat, opts: Options, depth: nat) returns (r: Result<Node>)
    ensures r == Decode(b, pos, opts, depth)
    decreases Remaining(b, pos), 1
  {
    if depth >= opts.maxRecursion {
      return Err(RecursionExceeded(pos, depth));
    }
    if pos >= |b| {
      return Err(BytesEmpty(pos));
    }
    var curr := b[pos];
    if curr == INT_START {
      var n := DecodeInt(b, pos + 1, BEN_END);
      match n
      case Err(e) => r := Err(e);
      case Ok(i, next) => r := Ok(IntNode(i, b[pos..next]), next);
    } else if curr == LIST_START {
      var l := DecodeList(b, pos + 1, opts, depth);
      match l
      case Err(e) => r := Err(e);
      case Ok(items, next) => r := Ok(ListNode(items, b[pos..next]), next);
    } else if curr == DICT_START {
      var m := DecodeDict(b, pos + 1, opts, depth);
      match m
      case Err(e) => r := Err(e);
      case Ok(entries, next) => r := Ok(DictNode(entries, b[pos..next]), next);
    } else if BYTE_LEN_LOW <= curr <= BYTE_LEN_HIGH {
      var s := DecodeStr(b, pos);
      match s
      case Err(e) => r := Err(e);
      case Ok(bytes, next) => r := Ok(StrNode(bytes, b[pos..next]), next);
    } else {
      r := Err(InvalidByte(pos));
    }
  }

  method DecodeList(b: Bytes, pos: nat, opts: Options, depth: nat) returns (r: Result<seq<Node>>)
    ensures r == DecodeItems(b, pos, opts, depth)
    decreases Remaining(b, pos), 2
  {
    var items: seq<Node> := [];
    var cur := pos;
    if cur >= |b| {
      return Err(BytesEmpty(cur));
    }
    ghost var whole := DecodeItems(b, pos, opts, depth);
    assert whole.Ok? ==> [] + whole.value == whole.value;
    while b[cur] != BEN_END
      invariant pos <= cur < |b|
      invariant DecodeItems(b, pos, opts, depth) == Prepend(items, DecodeItems(b, cur, opts, depth))
      decreases |b| - cur
    {
      var d := DecodeValue(b, cur, opts, depth + 1);
      if d.Err? {
        return Err(d.error);
      }
      ghost var rest := DecodeItems(b, d.next, opts, depth);
      assert rest.Ok? ==> items + ([d.value] + rest.value) == items + [d.value] + rest.value;
      items := items + [d.value];
      cur := d.next;
      if cur >= |b| {
        return Err(BytesEmpty(cur));
      }
    }
    assert items + [] == items;
    return Ok(items, cur + 1);
  }

  method DecodeDict(b: Bytes, pos: nat, opts: Options, depth: nat) returns (r: Result<seq<Pair<Node>>>)
    ensures r == DecodeEntries(b, pos, opts, depth, [])
    decreases Remaining(b, pos), 2
  {
    var dict: seq<Pair<Node>> := [];
    var cur := pos;
    if cur >= |b| {
      return Err(BytesEmpty(cur));
    }
    while b[cur] != BEN_END
      invariant pos <= cur < |b|
      invariant DecodeEntries(b, pos, opts, depth, []) == DecodeEntries(b, cur, opts, depth, dict)
      decreases |b| - cur
    {
      var k := DecodeStr(b, cur);
      if k.Err? {
        return Err(k.error);
      }
      if opts.checkKeySort && dict != [] && Less(k.value, dict[|dict| - 1].key) {
        return Err(KeyOrdering(cur, k.value));
      }
      cur := k.next;
      var d := DecodeValue(b, cur, opts, depth + 1);
      if d.Err? {
        return Err(d.error);
      }
      if HasKey(dict, k.value) {
        return Err(KeyDuplicates(cur, k.value));
      }
      dict := Insert(dict, Pair(k.value, d.value));
      cur := d.next;
      if cur >= |b| {
        return Err(BytesEmpty(cur));
      }
    }
    return Ok(dict, cur + 1);
  }

  // ----- encoder -----

  /** The `Vec<u8>` the encoder appends to. */
  class Buffer {
    var data: Bytes

    constructor ()
      ensures data == []
    {
      data := [];
    }

    method AppendInt(n: int)
      modifies this
      ensures data == old(data) + EncodeInt(n)
    {
      data := data + [INT_START];
      data := data + Decimal(n);
      data := data + [BEN_END];
    }

    method AppendStr(s: Bytes)
      modifies this
      ensures data == old(data) + EncodeStr(s)
    {
      data := data + Digits(|s|);
      data := data + [BYTE_LEN_END];
      data := data + s;
    }

    method AppendValue(v: Value)
      modifies this
      ensures data == old(data) + Encode(v)
      decreases Size(v), 1
    {
      match v
      case Int(n) => AppendInt(n);
      case Str(s) => AppendStr(s);
      case List(items) => AppendList(items);
      case Dict(entries) => AppendDict(entries);
    }

    method AppendList(items: seq<Value>)
      modifies this
      ensures data == old(data) + Encode(List(items))
      decreases SizeItems(items), 1
    {
      data := data + [LIST_START];
      var i := 0;
      while i < |items|
        invariant 0 <= i <= |items|
        invariant data + EncodeItems(items[i..]) == old(data) + [LIST_START] + EncodeItems(items)
        invariant SizeItems(items[i..]) <= SizeItems(items)
      {
        ghost var rest := items[i..];
        assert rest[0] == items[i] && rest[1..] == items[i + 1..];
        ghost var before := data;
        AppendValue(items[i]);
        AppendedItem(before, rest, data);
        i := i + 1;
      }
      assert items[i..] == [] && data + [] == data;
      AppendedBody(old(data), LIST_START, EncodeItems(items), data);
      data := data + [BEN_END];
    }

    method AppendDict(entries: seq<Pair<Value>>)
      modifies this
      ensures data == old(data) + Encode(Dict(entries))
      decreases SizeEntries(entries), 1
    {
      var sorted := Sort(entries);
      SizeSort(entries);
      data := data + [DICT_START];
      var i := 0;
      while i < |sorted|
        invariant 0 <= i <= |sorted|
        invariant data + EncodeEntries(sorted[i..]) == old(data) + [DICT_START] + EncodeEntries(sorted)
        invariant SizeEntries(sorted[i..]) <= SizeEntries(sorted)
      {
        ghost var rest := sorted[i..];
        assert rest[0] == sorted[i] && rest[1..] == sorted[i + 1..];
        ghost var before := data;
        AppendStr(sorted[i].key);
        AppendValue(sorted[i].value);
        AppendedEntry(before, rest, data);
        i := i + 1;
      }
      assert sorted[i..] == [] && data + [] == data;
      AppendedBody(old(data), DICT_START, EncodeEntries(sorted), data);
      data := data + [BEN_END];
    }
  }

  lemma AppendedItem(before: Bytes, vs: seq<Value>, after: Bytes)
    requires vs != [] && after == before + Encode(vs[0])
    ensures before + EncodeItems(vs) == after + EncodeItems(vs[1..])
  {
  }

  /** The buffer around a container's body. */
  lemma AppendedBody(before: Bytes, open: Byte, body: Bytes, after: Bytes)
    requires after == before + [open] + body
    ensures after + [BEN_END] == before + ([open] + body + [BEN_END])
  {
  }

  lemma AppendedEntry(before: Bytes, es: seq<Pair<Value>>, after: Bytes)
    requires es != [] && after == before + EncodeStr(es[0].key) + Encode(es[0].value)
    ensures before + EncodeEntries(es) == after + EncodeEntries(es[1..])
  {
  }

  /** `BencodeMut::encode`: the encoding, in a fresh buffer. */
  method EncodeToBuffer(v: Value) returns (buffer: Buffer)
    ensures fresh(buffer) && buffer.data == Encode(v)
  {
    buffer := new Buffer();
    buffer.AppendValue(v);
    assert [] + Encode(v) == Encode(v);
  }
}

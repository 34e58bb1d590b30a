/** Key/value sequences: the entries of a bencode dictionary. A `BTreeMap` is modelled
    by its entries in strictly ascending key order; `to_list` may return any order. */
module Dictionaries {
  import opened ByteStrings

  datatype Pair<+V> = Pair(key: Bytes, value: V)

  /** Strictly ascending keys: the entries of a `BTreeMap` in iteration order. */
  ghost predicate Ascending<V>(es: seq<Pair<V>>) {
    forall i, j :: 0 <= i < j < |es| ==> Less(es[i].key, es[j].key)
  }

  ghost predicate DistinctKeys<V>(es: seq<Pair<V>>) {
    forall i, j :: 0 <= i < j < |es| ==> es[i].key != es[j].key
  }

  predicate HasKey<V>(es: seq<Pair<V>>, key: Bytes) {
    exists i :: 0 <= i < |es| && es[i].key == key
  }

  /** Inserts an entry before the first entry with a larger key. */
  function Insert<V>(es: seq<Pair<V>>, e: Pair<V>): seq<Pair<V>> {
    if es == [] then [e]
    else if Less(e.key, es[0].key) then [e] + es
    else [es[0]] + Insert(es[1..], e)
  }

  /** The entries in key order, as `sort_by` leaves them. */
  function Sort<V>(es: seq<Pair<V>>): seq<Pair<V>> {
    if es == [] then [] else Insert(Sort(es[1..]), es[0])
  }

  lemma {:induction false} InsertMultiset<V>(es: seq<Pair<V>>, e: Pair<V>)
    ensures multiset(Insert(es, e)) == multiset(es) + multiset{e}
  {
    if es != [] && !Less(e.key, es[0].key) {
      assert es == [es[0]] + es[1..];
      InsertMultiset(es[1..], e);
    }
  }

  /** Sorting permutes the entries. */
  lemma {:induction false} SortMultiset<V>(es: seq<Pair<V>>)
    ensures multiset(Sort(es)) == multiset(es)
  {
    if es != [] {
      assert es == [es[0]] + es[1..];
      SortMultiset(es[1..]);
      InsertMultiset(Sort(es[1..]), es[0]);
    }
  }

  lemma MemberOf<V>(es: seq<Pair<V>>, fs: seq<Pair<V>>)
    requires multiset(es) == multiset(fs)
    ensures |es| == |fs|
    ensures forall i :: 0 <= i < |es| ==> es[i] in fs
  {
    assert |multiset(es)| == |multiset(fs)|;
    forall i | 0 <= i < |es|
      ensures es[i] in fs
    {
      assert es[i] in multiset(es);
      assert es[i] in multiset(fs);
    }
  }

  lemma InsertMembers<V>(es: seq<Pair<V>>, e: Pair<V>)
    ensures |Insert(es, e)| == |es| + 1
    ensures var r := Insert(es, e); forall i :: 0 <= i < |r| ==> r[i] == e || r[i] in es
  {
    InsertMultiset(es, e);
    assert multiset(es + [e]) == multiset(es) + multiset{e};
    MemberOf(Insert(es, e), es + [e]);
  }

  /** Inserting a new key keeps a `BTreeMap` a `BTreeMap`. */
  lemma {:induction false} InsertAscending<V>(es: seq<Pair<V>>, e: Pair<V>)
    requires Ascending(es) && !HasKey(es, e.key)
    ensures Ascending(Insert(es, e))
  {
    if es != [] {
      if Less(e.key, es[0].key) {
        forall j | 0 < j < |es|
          ensures Less(e.key, es[j].key)
        {
          LessTransitive(e.key, es[0].key, es[j].key);
        }
      } else {
        LessTotal(e.key, es[0].key);
        var rest := Insert(es[1..], e);
        InsertAscending(es[1..], e);
        InsertMembers(es[1..], e);
        forall j | 0 <= j < |rest|
          ensures Less(es[0].key, rest[j].key)
        {
          assert rest[j] == e || rest[j] in es[1..];
        }
      }
    }
  }

  /** A key above every present key is inserted at the end. */
  lemma {:induction false} InsertLast<V>(es: seq<Pair<V>>, e: Pair<V>)
    requires forall i :: 0 <= i < |es| ==> Less(es[i].key, e.key)
    ensures Insert(es, e) == es + [e]
  {
    if es != [] {
      if Less(e.key, es[0].key) {
        LessTransitive(e.key, es[0].key, e.key);
        LessIrreflexive(e.key);
        assert false;
      }
      InsertLast(es[1..], e);
    }
  }

  /** A key below every present key is inserted in front. */
  lemma InsertFirst<V>(es: seq<Pair<V>>, e: Pair<V>)
    requires forall i :: 0 <= i < |es| ==> Less(e.key, es[i].key)
    ensures Insert(es, e) == [e] + es
  {
  }

  /** Sorting distinct keys gives the `BTreeMap` order. */
  lemma {:induction false} SortAscending<V>(es: seq<Pair<V>>)
    requires DistinctKeys(es)
    ensures Ascending(Sort(es))
  {
    if es != [] {
      SortAscending(es[1..]);
      var rest := Sort(es[1..]);
      SortMultiset(es[1..]);
      MemberOf(rest, es[1..]);
      forall i | 0 <= i < |rest|
        ensures rest[i].key != es[0].key
      {
        assert rest[i] in es[1..];
      }
      InsertAscending(rest, es[0]);
    }
  }

  /** Entries already in order are left as they are. */
  lemma {:induction false} SortOfAscending<V>(es: seq<Pair<V>>)
    requires Ascending(es)
    ensures Sort(es) == es
  {
    if es != [] {
      SortOfAscending(es[1..]);
      InsertFirst(es[1..], es[0]);
    }
  }

  lemma AscendingDistinct<V>(es: seq<Pair<V>>)
    requires Ascending(es)
    ensures DistinctKeys(es)
  {
    forall i, j | 0 <= i < j < |es|
      ensures es[i].key != es[j].key
    {
      LessIrreflexive(es[i].key);
    }
  }

  /** A map has one ascending listing: two ascending sequences of the same entries are equal. */
  lemma {:induction false} AscendingUnique<V>(es: seq<Pair<V>>, fs: seq<Pair<V>>)
    requires Ascending(es) && Ascending(fs) && multiset(es) == multiset(fs)
    ensures es == fs
  {
    MemberOf(es, fs);
    if es != [] {
      MemberOf(fs, es);
      SameLeast(es, fs);
      TailMultiset(es);
      TailMultiset(fs);
      AscendingUnique(es[1..], fs[1..]);
      assert es == [es[0]] + es[1..] && fs == [fs[0]] + fs[1..];
    }
  }

  lemma TailMultiset<V>(es: seq<V>)
    requires es != []
    ensures multiset(es[1..]) == multiset(es) - multiset{es[0]}
  {
    assert es == [es[0]] + es[1..];
  }

  lemma SameLeast<V>(es: seq<Pair<V>>, fs: seq<Pair<V>>)
    requires Ascending(es) && Ascending(fs) && es != [] && fs != []
    requires es[0] in fs && fs[0] in es
    ensures es[0] == fs[0]
  {
    var j :| 0 <= j < |fs| && fs[j] == es[0];
    var i :| 0 <= i < |es| && es[i] == fs[0];
    if i > 0 && j > 0 {
      LessTransitive(es[0].key, es[i].key, es[0].key);
      LessIrreflexive(es[0].key);
    }
  }
}

/** Bencode values, the decoder's nodes, its options and its errors. */
module Bencode {
  import opened Wrappers
  import opened ByteStrings
  import opened DecimalText
  import opened Dictionaries

  const BEN_END: Byte := 101        // 'e'
  const DICT_START: Byte := 100     // 'd'
  const LIST_START: Byte := 108     // 'l'
  const INT_START: Byte := 105      // 'i'
  const BYTE_LEN_LOW: Byte := 48    // '0'
  const BYTE_LEN_HIGH: Byte := 57   // '9'
  const BYTE_LEN_END: Byte := 58    // ':'

  /** A bencode value (`BencodeMut`). */
  datatype Value =
    | Int(n: int)
    | Str(s: Bytes)
    | List(items: seq<Value>)
    | Dict(entries: seq<Pair<Value>>)

  /** A decoded value with the exact slice of the input it came from (`BencodeRef`). */
  datatype Node =
    | IntNode(n: int, buffer: Bytes)
    | StrNode(s: Bytes, buffer: Bytes)
    | ListNode(items: seq<Node>, buffer: Bytes)
    | DictNode(entries: seq<Pair<Node>>, buffer: Bytes)

  datatype Options = Options(maxRecursion: nat, checkKeySort: bool, enforceFullDecode: bool)

  datatype Error =
    | RecursionExceeded(pos: nat, max: nat)
    | BytesEmpty(pos: nat)
    | InvalidByte(pos: nat)
    | IntNoDelimiter(pos: nat)
    | IntNegativeZero(pos: nat)
    | IntZeroPadding(pos: nat)
    | IntParseError(pos: nat)
    | LengthNegative(pos: nat)
    | LengthOverflow(pos: nat)
    | KeyOrdering(pos: nat, key: Bytes)
    | KeyDuplicates(pos: nat, key: Bytes)

  datatype Result<+T> = Ok(value: T, next: nat) | Err(error: Error)

  // ----- values -----

  /** Number of nodes, the measure of the recursions that go through sorted entries. */
  ghost function Size(v: Value): nat
  {
    match v
    case Int(_) => 1
    case Str(_) => 1
    case List(items) => 1 + SizeItems(items)
    case Dict(entries) => 1 + SizeEntries(entries)
  }

  ghost function SizeItems(vs: seq<Value>): nat {
    if vs == [] then 0 else 1 + Size(vs[0]) + SizeItems(vs[1..])
  }

  ghost function SizeEntries(es: seq<Pair<Value>>): nat {
    if es == [] then 0 else 1 + Size(es[0].value) + SizeEntries(es[1..])
  }

  lemma {:induction false} SizeInsert(es: seq<Pair<Value>>, e: Pair<Value>)
    ensures SizeEntries(Insert(es, e)) == SizeEntries(es) + 1 + Size(e.value)
  {
    if es != [] && !Less(e.key, es[0].key) {
      SizeInsert(es[1..], e);
    } else {
      assert ([e] + es)[1..] == es;
    }
  }

  lemma {:induction false} SizeSort(es: seq<Pair<Value>>)
    ensures SizeEntries(Sort(es)) == SizeEntries(es)
  {
    if es != [] {
      SizeSort(es[1..]);
      SizeInsert(Sort(es[1..]), es[0]);
    }
  }

  lemma SizeMember(es: seq<Pair<Value>>, i: nat)
    requires i < |es|
    ensures Size(es[i].value) < SizeEntries(es)
  {
    if i > 0 {
      SizeMember(es[1..], i - 1);
    }
  }

  /** A value the encoder can be given: 64-bit integers, lengths that a 64-bit length
      prefix can state, and one value per key. */
  ghost predicate WellFormed(v: Value)
  {
    match v
    case Int(n) => InI64(n)
    case Str(s) => |s| <= I64_MAX
    case List(items) => forall i :: 0 <= i < |items| ==> WellFormed(items[i])
    case Dict(entries) =>
      && DistinctKeys(entries)
      && forall i :: 0 <= i < |entries| ==> |entries[i].key| <= I64_MAX && WellFormed(entries[i].value)
  }

  /** Nesting height at most `height`; an integer, a string and an empty container have height 1. */
  ghost predicate HeightAtMost(v: Value, height: int)
  {
    1 <= height &&
    match v
    case Int(_) => true
    case Str(_) => true
    case List(items) => forall i :: 0 <= i < |items| ==> HeightAtMost(items[i], height - 1)
    case Dict(entries) => forall i :: 0 <= i < |entries| ==> HeightAtMost(entries[i].value, height - 1)
  }

  /** The same value with every dictionary listed in key order: equality of values as maps. */
  ghost function Normal(v: Value): Value
    decreases Size(v), 1
  {
    match v
    case Int(_) => v
    case Str(_) => v
    case List(items) => List(NormalItems(items))
    case Dict(entries) => SizeSort(entries); Dict(NormalEntries(Sort(entries)))
  }

  ghost function NormalItems(vs: seq<Value>): seq<Value>
    decreases SizeItems(vs), 0
  {
    if vs == [] then [] else [Normal(vs[0])] + NormalItems(vs[1..])
  }

  ghost function NormalEntries(es: seq<Pair<Value>>): (r: seq<Pair<Value>>)
    ensures |r| == |es|
    ensures forall i :: 0 <= i < |es| ==> r[i].key == es[i].key
    decreases SizeEntries(es), 0
  {
    if es == [] then [] else [Pair(es[0].key, Normal(es[0].value))] + NormalEntries(es[1..])
  }

  // ----- the encoding -----

  function EncodeInt(n: int): Bytes { [INT_START] + Decimal(n) + [BEN_END] }

  function EncodeStr(s: Bytes): Bytes { Digits(|s|) + [BYTE_LEN_END] + s }

  /** The bencoding of a value; dictionary keys are emitted in sorted order. */
  ghost function Encode(v: Value): Bytes
    decreases Size(v), 1
  {
    match v
    case Int(n) => EncodeInt(n)
    case Str(s) => EncodeStr(s)
    case List(items) => [LIST_START] + EncodeItems(items) + [BEN_END]
    case Dict(entries) => SizeSort(entries); [DICT_START] + EncodeEntries(Sort(entries)) + [BEN_END]
  }

  ghost function EncodeItems(vs: seq<Value>): Bytes
    decreases SizeItems(vs), 0
  {
    if vs == [] then [] else Encode(vs[0]) + EncodeItems(vs[1..])
  }

  ghost function EncodeEntries(es: seq<Pair<Value>>): Bytes
    decreases SizeEntries(es), 0
  {
    if es == [] then []
    else EncodeStr(es[0].key) + Encode(es[0].value) + EncodeEntries(es[1..])
  }

  // ----- the decoder -----

  /** Reads an integer that ends at the first `delim`. A slice that is not UTF-8 is not a
      number either, and both are reported as the same error. */
  function DecodeInt(b: Bytes, pos: nat, delim: Byte): (r: Result<int>)
    requires pos <= |b|
    ensures r.Ok? ==> pos + 1 < r.next <= |b| && InI64(r.value)
  {
    var end := FindByte(b, pos, delim);
    if end == |b| then Err(IntNoDelimiter(pos))
    else
      var s := b[pos..end];
      if |s| > 1 && s[0] == MINUS && s[1] == ZERO then Err(IntNegativeZero(pos))
      else if |s| > 1 && s[0] == ZERO then Err(IntZeroPadding(pos))
      else
        match ParseI64(s)
        case Some(n) => Ok(n, end + 1)
        case None => Err(IntParseError(pos))
  }

  /** Reads a length-prefixed string, used for string values and for dictionary keys. */
  function DecodeStr(b: Bytes, pos: nat): (r: Result<Bytes>)
    requires pos <= |b|
    ensures r.Ok? ==> pos + |r.value| < r.next <= |b| && r.value == b[r.next - |r.value|..r.next]
  {
    match DecodeInt(b, pos, BYTE_LEN_END)
    case Err(e) => Err(e)
    case Ok(n, start) =>
      if n < 0 then Err(LengthNegative(pos))
      else if n > |b| - start then Err(LengthOverflow(pos))
      else Ok(b[start..start + n], start + n)
  }

  function Remaining(b: Bytes, pos: nat): nat { if pos <= |b| then |b| - pos else 0 }

  /** Reads the value at `pos`, at nesting level `depth`. A success strictly advances, stays
      within the buffer, and records the slice it consumed. */
  function Decode(b: Bytes, pos: nat, opts: Options, depth: nat): (r: Result<Node>)
    ensures r.Ok? ==> pos < r.next <= |b| && r.value.buffer == b[pos..r.next]
    decreases Remaining(b, pos), 1
  {
    if depth >= opts.maxRecursion then Err(RecursionExceeded(pos, depth))
    else if pos >= |b| then Err(BytesEmpty(pos))
    else if b[pos] == INT_START then
      (match DecodeInt(b, pos + 1, BEN_END)
       case Err(e) => Err(e)
       case Ok(n, next) => Ok(IntNode(n, b[pos..next]), next))
    else if b[pos] == LIST_START then
      (match DecodeItems(b, pos + 1, opts, depth)
       case Err(e) => Err(e)
       case Ok(items, next) => Ok(ListNode(items, b[pos..next]), next))
    else if b[pos] == DICT_START then
      (match DecodeEntries(b, pos + 1, opts, depth, [])
       case Err(e) => Err(e)
       case Ok(entries, next) => Ok(DictNode(entries, b[pos..next]), next))
    else if BYTE_LEN_LOW <= b[pos] <= BYTE_LEN_HIGH then
      (match DecodeStr(b, pos)
       case Err(e) => Err(e)
       case Ok(s, next) => Ok(StrNode(s, b[pos..next]), next))
    else Err(InvalidByte(pos))
  }

  /** The values up to the closing `e` of a list. */
  function DecodeItems(b: Bytes, pos: nat, opts: Options, depth: nat): (r: Result<seq<Node>>)
    ensures r.Ok? ==> pos < r.next <= |b|
    decreases Remaining(b, pos), 2
  {
    if pos >= |b| then Err(BytesEmpty(pos))
    else if b[pos] == BEN_END then Ok([], pos + 1)
    else
      match Decode(b, pos, opts, depth + 1)
      case Err(e) => Err(e)
      case Ok(node, p) =>
        match DecodeItems(b, p, opts, depth)
        case Err(e) => Err(e)
        case Ok(nodes, next) => Ok([node] + nodes, next)
  }

  /** The entries up to the closing `e` of a dictionary, added to `acc`, the map read so far. */
  function DecodeEntries(b: Bytes, pos: nat, opts: Options, depth: nat,
                         acc: seq<Pair<Node>>): (r: Result<seq<Pair<Node>>>)
    ensures r.Ok? ==> pos < r.next <= |b|
    decreases Remaining(b, pos), 2
  {
    if pos >= |b| then Err(BytesEmpty(pos))
    else if b[pos] == BEN_END then Ok(acc, pos + 1)
    else
      match DecodeStr(b, pos)
      case Err(e) => Err(e)
      case Ok(key, p) =>
        if opts.checkKeySort && acc != [] && Less(key, acc[|acc| - 1].key) then Err(KeyOrdering(pos, key))
        else
          match Decode(b, p, opts, depth + 1)
          case Err(e) => Err(e)
          case Ok(node, q) =>
            if HasKey(acc, key) then Err(KeyDuplicates(p, key))
            else DecodeEntries(b, q, opts, depth, Insert(acc, Pair(key, node)))
  }

  /** `BencodeRef::decode`: the whole-buffer entry point. */
  function DecodeBuffer(b: Bytes, opts: Options): (r: Result<Node>)
    ensures r.Ok? ==> r.next <= |b| && r.value.buffer == b[..r.next]
    ensures r.Ok? && opts.enforceFullDecode ==> r.next == |b|
  {
    match Decode(b, 0, opts, 0)
    case Err(e) => Err(e)
    case Ok(node, next) =>
      if next != |b| && opts.enforceFullDecode then Err(BytesEmpty(next)) else Ok(node, next)
  }

  // ----- from nodes to values -----

  ghost function Erase(n: Node): Value
    decreases n
  {
    match n
    case IntNode(i, _) => Int(i)
    case StrNode(s, _) => Str(s)
    case ListNode(items, _) => List(EraseItems(items))
    case DictNode(entries, _) => Dict(EraseEntries(entries))
  }

  ghost function EraseItems(ns: seq<Node>): (r: seq<Value>)
    ensures |r| == |ns|
    ensures forall i :: 0 <= i < |ns| ==> r[i] == Erase(ns[i])
    decreases ns
  {
    if ns == [] then [] else [Erase(ns[0])] + EraseItems(ns[1..])
  }

  ghost function EraseEntries(es: seq<Pair<Node>>): (r: seq<Pair<Value>>)
    ensures |r| == |es|
    ensures forall i :: 0 <= i < |es| ==> r[i] == Pair(es[i].key, Erase(es[i].value))
    decreases es
  {
    if es == [] then [] else [Pair(es[0].key, Erase(es[0].value))] + EraseEntries(es[1..])
  }
}

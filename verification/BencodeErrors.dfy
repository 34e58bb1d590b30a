/** What the decoder's errors say about the buffer: every reported error is true of it, at the
    reported position. */
module BencodeErrors {
  import opened Wrappers
  import opened ByteStrings
  import opened DecimalText
  import opened Dictionaries
  import opened Bencode
  import opened BencodeGrammar
  import opened BencodeLaws

  /** The text from `pos` up to the first delimiter. */
  ghost predicate NumberAt(b: Bytes, pos: nat, delim: Byte, s: Bytes) {
    OccursAt(b, pos, s + [delim]) && delim !in s
  }

  /** An integer ends in `e`, a length in `:`. */
  predicate Delimits(delim: Byte) { delim == 101 || delim == 58 }

  ghost predicate NumberText(b: Bytes, pos: nat, s: Bytes) {
    exists delim :: Delimits(delim) && NumberAt(b, pos, delim, s)
  }

  /** A key with its length prefix stands at `pos` and ends at `end`. */
  ghost predicate KeyAt(b: Bytes, pos: nat, key: Bytes, end: nat) {
    exists s :: NumberAt(b, pos, 58, s) && ParseI64(s) == Some(|key|) &&
                end == pos + |s| + 1 + |key| && OccursAt(b, end - |key|, key)
  }

  ghost predicate EarlierKey(b: Bytes, pos: nat, key: Bytes) { exists q: nat, r: nat :: q < pos && KeyAt(b, q, key, r) }

  /** What each error says. */
  ghost predicate Explains(e: Error, b: Bytes, o: Options) {
    match e
    case RecursionExceeded(p, max) => p <= |b| && max == o.maxRecursion
    case BytesEmpty(p) => p == |b|
    case InvalidByte(p) => p < |b| && b[p] !in {100, 105, 108} && !(48 <= b[p] <= 57)
    case IntNoDelimiter(p) =>
      p <= |b| && ((p > 0 && b[p - 1] == 105 && 101 !in b[p..]) || (p < |b| && 58 !in b[p..]))
    case IntNegativeZero(p) => exists s :: NumberText(b, p, s) && |s| > 1 && s[0] == 45 && s[1] == 48
    case IntZeroPadding(p) => exists s :: NumberText(b, p, s) && |s| > 1 && s[0] == 48
    case IntParseError(p) => exists s :: NumberText(b, p, s) && ParseI64(s) == None
    case LengthNegative(p) => exists s, n :: NumberAt(b, p, 58, s) && ParseI64(s) == Some(n) && n < 0
    case LengthOverflow(p) =>
      exists s, n :: NumberAt(b, p, 58, s) && ParseI64(s) == Some(n) && p + |s| + 1 + n > |b|
    case KeyOrdering(p, key) =>
      o.checkKeySort && (exists r :: KeyAt(b, p, key, r)) &&
      exists above :: EarlierKey(b, p, above) && Precedes(key, above)
    case KeyDuplicates(p, key) =>
      (exists q :: KeyAt(b, q, key, p) && EarlierKey(b, q, key)) && exists d :: Decode(b, p, o, d).Ok?
  }

  lemma {:induction false} NumberRead(b: Bytes, pos: nat, delim: Byte)
    requires pos <= |b| && FindByte(b, pos, delim) < |b|
    ensures NumberAt(b, pos, delim, b[pos..FindByte(b, pos, delim)])
  {
    var end := FindByte(b, pos, delim);
    assert b[pos..end] + [delim] == b[pos..end + 1];
  }

  lemma {:induction false} IntErrors(b: Bytes, pos: nat, delim: Byte, o: Options)
    requires pos <= |b| && DecodeInt(b, pos, delim).Err?
    requires (delim == 101 && pos > 0 && b[pos - 1] == 105) || (delim == 58 && pos < |b|)
    ensures Explains(DecodeInt(b, pos, delim).error, b, o)
  {
    var end := FindByte(b, pos, delim);
    if end < |b| {
      NumberRead(b, pos, delim);
      assert NumberText(b, pos, b[pos..end]);
    } else {
      assert delim !in b[pos..];
    }
  }

  lemma {:induction false} IntRead(b: Bytes, pos: nat, delim: Byte) returns (s: Bytes)
    requires pos <= |b| && DecodeInt(b, pos, delim).Ok?
    ensures NumberAt(b, pos, delim, s) && ParseI64(s) == Some(DecodeInt(b, pos, delim).value)
    ensures DecodeInt(b, pos, delim).next == pos + |s| + 1
  {
    s := b[pos..FindByte(b, pos, delim)];
    NumberRead(b, pos, delim);
  }

  lemma {:induction false} StrErrors(b: Bytes, pos: nat, o: Options)
    requires pos < |b| && DecodeStr(b, pos).Err?
    ensures Explains(DecodeStr(b, pos).error, b, o)
  {
    if DecodeInt(b, pos, BYTE_LEN_END).Err? {
      IntErrors(b, pos, BYTE_LEN_END, o);
    } else {
      var s := IntRead(b, pos, BYTE_LEN_END);
    }
  }

  lemma {:induction false} KeyRead(b: Bytes, pos: nat)
    requires pos <= |b| && DecodeStr(b, pos).Ok?
    ensures KeyAt(b, pos, DecodeStr(b, pos).value, DecodeStr(b, pos).next)
  {
    var s := IntRead(b, pos, BYTE_LEN_END);
    StrRead(b, pos, DecodeInt(b, pos, BYTE_LEN_END).next);
    KeyStands(b, pos, s, DecodeStr(b, pos).value);
  }

  lemma {:induction false} StrRead(b: Bytes, pos: nat, start: nat)
    requires pos <= |b| && DecodeStr(b, pos).Ok? && start == DecodeInt(b, pos, BYTE_LEN_END).next
    ensures var key := DecodeStr(b, pos).value;
            && DecodeInt(b, pos, BYTE_LEN_END).value == |key| && OccursAt(b, start, key)
            && DecodeStr(b, pos).next == start + |key|
  {
  }

  lemma {:induction false} KeyStands(b: Bytes, pos: nat, s: Bytes, key: Bytes)
    requires NumberAt(b, pos, 58, s) && ParseI64(s) == Some(|key|) && OccursAt(b, pos + |s| + 1, key)
    ensures KeyAt(b, pos, key, pos + |s| + 1 + |key|)
  {
    var end := pos + |s| + 1 + |key|;
    assert end - |key| == pos + |s| + 1;
  }

  lemma {:induction false} DecodeErrors(b: Bytes, pos: nat, o: Options, d: nat)
    requires pos <= |b| && d <= o.maxRecursion && Decode(b, pos, o, d).Err?
    ensures Explains(Decode(b, pos, o, d).error, b, o)
    decreases |b| - pos, 1
  {
    if d < o.maxRecursion && pos < |b| {
      if b[pos] == INT_START {
        IntErrors(b, pos + 1, BEN_END, o);
      } else if b[pos] == LIST_START {
        ItemsErrors(b, pos + 1, o, d);
      } else if b[pos] == DICT_START {
        EntriesErrors(b, pos + 1, o, d, []);
      } else if BYTE_LEN_LOW <= b[pos] <= BYTE_LEN_HIGH {
        StrErrors(b, pos, o);
      }
    }
  }

  lemma {:induction false} ItemsErrors(b: Bytes, pos: nat, o: Options, d: nat)
    requires pos <= |b| && d < o.maxRecursion && DecodeItems(b, pos, o, d).Err?
    ensures Explains(DecodeItems(b, pos, o, d).error, b, o)
    decreases |b| - pos, 2
  {
    if pos < |b| {
      var r := Decode(b, pos, o, d + 1);
      if r.Err? {
        DecodeErrors(b, pos, o, d + 1);
      } else {
        ItemsErrors(b, r.next, o, d);
      }
    }
  }

  /** The keys of the map read so far stand before the position. */
  ghost predicate ReadBefore(b: Bytes, acc: seq<Pair<Node>>, pos: nat) {
    forall i :: 0 <= i < |acc| ==> EarlierKey(b, pos, acc[i].key)
  }

  lemma {:induction false} ReadNext(b: Bytes, acc: seq<Pair<Node>>, pos: nat, e: Pair<Node>, next: nat)
    requires ReadBefore(b, acc, pos) && pos < next && EarlierKey(b, next, e.key)
    ensures ReadBefore(b, Insert(acc, e), next)
  {
    InsertMembers(acc, e);
    var all := Insert(acc, e);
    forall i | 0 <= i < |all|
      ensures EarlierKey(b, next, all[i].key)
    {
      if all[i] != e {
        var j :| 0 <= j < |acc| && acc[j] == all[i];
        StillEarlier(b, pos, acc[j].key, next);
      }
    }
  }

  lemma {:induction false} StillEarlier(b: Bytes, pos: nat, key: Bytes, next: nat)
    requires EarlierKey(b, pos, key) && pos <= next
    ensures EarlierKey(b, next, key)
  {
    var q: nat, r: nat :| q < pos && KeyAt(b, q, key, r);
  }

  lemma {:induction false} EntriesErrors(b: Bytes, pos: nat, o: Options, d: nat, acc: seq<Pair<Node>>)
    requires pos <= |b| && d < o.maxRecursion && ReadBefore(b, acc, pos) && DecodeEntries(b, pos, o, d, acc).Err?
    ensures Explains(DecodeEntries(b, pos, o, d, acc).error, b, o)
    decreases |b| - pos, 2
  {
    if pos < |b| {
      var k := DecodeStr(b, pos);
      if k.Err? {
        StrErrors(b, pos, o);
      } else {
        KeyRead(b, pos);
        if o.checkKeySort && acc != [] && Less(k.value, acc[|acc| - 1].key) {
          LessIff(k.value, acc[|acc| - 1].key);
          assert EarlierKey(b, pos, acc[|acc| - 1].key);
        } else {
          EntryErrors(b, pos, o, d, acc, k.value, k.next);
        }
      }
    }
  }

  /** The rest of an entry after its key, and the entries after it. */
  lemma {:induction false} EntryErrors(b: Bytes, pos: nat, o: Options, d: nat, acc: seq<Pair<Node>>, key: Bytes, p: nat)
    requires pos < p <= |b| && d < o.maxRecursion && ReadBefore(b, acc, pos) && KeyAt(b, pos, key, p)
    ensures var r := Decode(b, p, o, d + 1);
            && (r.Err? ==> Explains(r.error, b, o))
            && (r.Ok? && HasKey(acc, key) ==> Explains(KeyDuplicates(p, key), b, o))
            && (r.Ok? && DecodeEntries(b, r.next, o, d, Insert(acc, Pair(key, r.value))).Err? ==>
                  Explains(DecodeEntries(b, r.next, o, d, Insert(acc, Pair(key, r.value))).error, b, o))
    decreases |b| - pos, 1
  {
    var r := Decode(b, p, o, d + 1);
    if r.Err? {
      DecodeErrors(b, p, o, d + 1);
    } else {
      if HasKey(acc, key) {
        var i :| 0 <= i < |acc| && acc[i].key == key;
        assert EarlierKey(b, pos, acc[i].key);
      }
      var e := Pair(key, r.value);
      ReadNext(b, acc, pos, e, r.next);
      if DecodeEntries(b, r.next, o, d, Insert(acc, e)).Err? {
        EntriesErrors(b, r.next, o, d, Insert(acc, e));
      }
    }
  }

  /** Every error is true of the buffer, where it says so: for every buffer and options, the reported
      position and data explain the refusal. Bytes left over after a whole value are reported at the
      first of them, and only when full decoding is enforced. */
  lemma {:induction false} ErrorsExplain(b: Bytes, o: Options)
    requires DecodeBuffer(b, o).Err?
    ensures var e := DecodeBuffer(b, o).error;
            if Decode(b, 0, o, 0).Err? then Explains(e, b, o)
            else o.enforceFullDecode && Decode(b, 0, o, 0).next < |b| && e == BytesEmpty(Decode(b, 0, o, 0).next)
  {
    if Decode(b, 0, o, 0).Err? {
      DecodeErrors(b, 0, o, 0);
    }
  }

  // ----- which error comes first -----

  /** A level too deep is refused at its position, whatever stands there, and even where the buffer ends:
      a value in a list or a dictionary of the deepest level. */
  lemma {:induction false} ItemTooDeep(b: Bytes, pos: nat, o: Options, d: nat)
    requires d + 1 == o.maxRecursion && pos + 1 < |b| && b[pos] == 108 && b[pos + 1] != 101
    ensures Decode(b, pos, o, d) == Err(RecursionExceeded(pos + 1, o.maxRecursion))
  {
    assert Decode(b, pos + 1, o, d + 1) == Err(RecursionExceeded(pos + 1, d + 1));
    assert DecodeItems(b, pos + 1, o, d) == Err(RecursionExceeded(pos + 1, d + 1));
  }

  lemma {:induction false} ValueTooDeep(len: Bytes, key: Bytes, b: Bytes, pos: nat, o: Options, d: nat, p: nat)
    requires d + 1 == o.maxRecursion && Length(len, key)
    requires OccursAt(b, pos, [100] + (len + [58] + key)) && p == pos + 1 + |len| + 1 + |key|
    ensures Decode(b, pos, o, d) == Err(RecursionExceeded(p, o.maxRecursion))
  {
    OccursSplit(b, pos, [100], len + [58] + key);
    OccursByte(b, pos, 100);
    KeyDecodes(len, key, b, pos + 1, p);
    assert Decode(b, p, o, d + 1) == Err(RecursionExceeded(p, d + 1));
    DictFails(b, pos, o, d, RecursionExceeded(p, d + 1));
  }

  /** Accepted entries are read one after the other, whatever follows them. */
  lemma {:induction false} EntriesRead(es: seq<TermEntry>, b: Bytes, pos: nat, o: Options, d: nat,
                                       acc: seq<Pair<Node>>, end: nat, acc': seq<Pair<Node>>)
    requires forall i :: 0 <= i < |es| ==> EntryAccepted(es[i], o, d) && Parsed(es[i].value)
    requires KeysFit(acc, es, o.checkKeySort) && OccursAt(b, pos, TextEntries(es))
    requires end == pos + |TextEntries(es)| && acc' == EntriesOf(acc, es)
    ensures DecodeEntries(b, pos, o, d, acc) == DecodeEntries(b, end, o, d, acc')
    decreases es
  {
    if es != [] {
      var p, node := pos + |KeyText(es[0])|, NodeOf(es[0].value);
      var q := p + |Text(es[0].value)|;
      EntryStands(es, b, pos, p, q);
      EntriesLength(es);
      EntryRead(es[0], b, pos, o, d, acc, p, node, q);
      EntriesRead(es[1..], b, q, o, d, Insert(acc, Pair(es[0].key, node)), end, acc');
    }
  }

  lemma {:induction false} EntryRead(e: TermEntry, b: Bytes, pos: nat, o: Options, d: nat,
                                     acc: seq<Pair<Node>>, p: nat, node: Node, q: nat)
    requires EntryAccepted(e, o, d) && Parsed(e.value) && KeyFits(acc, e.key, o.checkKeySort)
    requires OccursAt(b, pos, e.len + [BYTE_LEN_END] + e.key) && p == pos + |e.len| + 1 + |e.key|
    requires OccursAt(b, p, Text(e.value)) && q == p + |Text(e.value)| && node == NodeOf(e.value)
    ensures DecodeEntries(b, pos, o, d, acc) == DecodeEntries(b, q, o, d, Insert(acc, Pair(e.key, node)))
  {
    ValueRead(e, b, p, o, d, node, q);
    KeyDecodes(e.len, e.key, b, pos, p);
    EntryStep(b, pos, o, d, acc, e.key, p, node, q);
  }

  lemma {:induction false} ValueRead(e: TermEntry, b: Bytes, p: nat, o: Options, d: nat, node: Node, q: nat)
    requires EntryAccepted(e, o, d) && Parsed(e.value)
    requires OccursAt(b, p, Text(e.value)) && q == p + |Text(e.value)| && node == NodeOf(e.value)
    ensures Decode(b, p, o, d + 1) == Ok(node, q)
  {
    TermDecodes(e.value, b, p, o, d + 1);
  }

  lemma {:induction false} EntryStands(es: seq<TermEntry>, b: Bytes, pos: nat, p: nat, q: nat)
    requires es != [] && OccursAt(b, pos, TextEntries(es))
    requires p == pos + |KeyText(es[0])| && q == p + |Text(es[0].value)|
    ensures OccursAt(b, pos, KeyText(es[0])) && OccursAt(b, p, Text(es[0].value))
    ensures OccursAt(b, q, TextEntries(es[1..]))
  {
    OccursThree(b, pos, KeyText(es[0]), Text(es[0].value), TextEntries(es[1..]));
  }

  lemma {:induction false} OccursThree(b: Bytes, pos: nat, x: Bytes, y: Bytes, z: Bytes)
    requires OccursAt(b, pos, x + y + z)
    ensures OccursAt(b, pos, x) && OccursAt(b, pos + |x|, y) && OccursAt(b, pos + |x| + |y|, z)
  {
    assert x + y + z == x + (y + z);
    OccursSplit(b, pos, x, y + z);
    OccursSplit(b, pos + |x|, y, z);
  }

  lemma {:induction false} KeyDecodes(len: Bytes, key: Bytes, b: Bytes, pos: nat, p: nat)
    requires Length(len, key) && OccursAt(b, pos, len + [BYTE_LEN_END] + key) && p == pos + |len| + 1 + |key|
    ensures pos < |b| && b[pos] != BEN_END && DecodeStr(b, pos) == Ok(key, p)
  {
    NumberStart(len);
    LengthDecodes(len, key, b, pos);
    var x := len + [BYTE_LEN_END] + key;
    assert b[pos] == b[pos..pos + |x|][0] == x[0];
  }

  lemma {:induction false} KeysRead(es: seq<TermEntry>, sorted: bool, key: Bytes, acc: seq<Pair<Node>>)
    requires KeysDistinct(es) && (sorted ==> KeysAscending(es)) && forall i :: 0 <= i < |es| ==> Parsed(es[i].value)
    requires acc == EntriesOf([], es)
    ensures HasKey(acc, key) <==> exists i :: 0 <= i < |es| && es[i].key == key
    ensures sorted ==> acc == PairsOf(es)
  {
    var ps := PairsOf(es);
    EntriesOfAscending([], es, sorted);
    assert [] + ps == ps;
    SameKeys(acc, ps, key);
    PairKeys(es, key);
  }

  lemma {:induction false} PairKeys(es: seq<TermEntry>, key: Bytes)
    requires forall i :: 0 <= i < |es| ==> Parsed(es[i].value)
    ensures HasKey(PairsOf(es), key) <==> exists i :: 0 <= i < |es| && es[i].key == key
  {
    if i :| 0 <= i < |es| && es[i].key == key {
      assert PairsOf(es)[i].key == key;
    }
  }

  lemma {:induction false} SameKeys(xs: seq<Pair<Node>>, ys: seq<Pair<Node>>, key: Bytes)
    requires multiset(xs) == multiset(ys)
    ensures HasKey(xs, key) <==> HasKey(ys, key)
  {
    if HasKey(xs, key) {
      KeyKept(xs, ys, key);
    }
    if HasKey(ys, key) {
      KeyKept(ys, xs, key);
    }
  }

  lemma {:induction false} KeyKept(xs: seq<Pair<Node>>, ys: seq<Pair<Node>>, key: Bytes)
    requires multiset(xs) == multiset(ys) && HasKey(xs, key)
    ensures HasKey(ys, key)
  {
    MemberOf(xs, ys);
    var i :| 0 <= i < |xs| && xs[i].key == key;
    assert xs[i] in ys;
  }

  lemma {:induction false} KeyOutcome(b: Bytes, at: nat, o: Options, d: nat, acc: seq<Pair<Node>>, key: Bytes, p: nat)
    requires at < |b| && b[at] != BEN_END && DecodeStr(b, at) == Ok(key, p)
    ensures var r, v := DecodeEntries(b, at, o, d, acc), Decode(b, p, o, d + 1);
            if o.checkKeySort && acc != [] && Less(key, acc[|acc| - 1].key) then r == Err(KeyOrdering(at, key))
            else HasKey(acc, key) ==> r == Err(if v.Err? then v.error else KeyDuplicates(p, key))
  {
  }

  lemma {:induction false} DictFails(b: Bytes, pos: nat, o: Options, d: nat, e: Error)
    requires pos < |b| && b[pos] == 100 && d < o.maxRecursion && DecodeEntries(b, pos + 1, o, d, []) == Err(e)
    ensures Decode(b, pos, o, d) == Err(e)
  {
  }

  /** The bytes of a further key after the entries of a dictionary. */
  lemma {:induction false} KeyAfter(x: Bytes, len: Bytes, key: Bytes, b: Bytes, pos: nat, at: nat)
    requires Length(len, key) && OccursAt(b, pos, [100] + x + (len + [58] + key)) && at == pos + 1 + |x|
    ensures pos < |b| && b[pos] == 100 && OccursAt(b, pos + 1, x)
    ensures at < |b| && b[at] != BEN_END && DecodeStr(b, at) == Ok(key, at + |len| + 1 + |key|)
  {
    var y := len + [58] + key;
    assert [100] + x + y == [100] + (x + y);
    OccursSplit(b, pos, [100], x + y);
    OccursByte(b, pos, 100);
    OccursSplit(b, pos + 1, x, y);
    KeyDecodes(len, key, b, at, at + |len| + 1 + |key|);
  }

  /** The map after the entries. */
  lemma {:induction false} EntriesBefore(es: seq<TermEntry>, b: Bytes, pos: nat, o: Options, d: nat,
                                         end: nat, acc: seq<Pair<Node>>)
    requires Accepted(DictTerm(es), o, d) && (forall i :: 0 <= i < |es| ==> Parsed(es[i].value))
    requires OccursAt(b, pos, TextEntries(es)) && end == pos + |TextEntries(es)| && acc == EntriesOf([], es)
    ensures DecodeEntries(b, pos, o, d, []) == DecodeEntries(b, end, o, d, acc)
  {
    AcceptedKeysFit(es, o.checkKeySort);
    EntriesRead(es, b, pos, o, d, [], end, acc);
  }

  lemma {:induction false} EntriesParsed(es: seq<TermEntry>, o: Options, d: nat)
    requires Accepted(DictTerm(es), o, d)
    ensures forall i :: 0 <= i < |es| ==> Parsed(es[i].value)
    ensures KeysDistinct(es) && (o.checkKeySort ==> KeysAscending(es)) && d < o.maxRecursion
  {
    AcceptedParsed(DictTerm(es), o, d);
  }

  /** After accepted entries, a further key at `at` that ends at `p`: out of order, with the order check on,
      it is refused at once, whatever follows. A key that was there before is refused only after its value
      has been read, and an error in that value comes first. */
  lemma {:induction false} BadKeyRefused(es: seq<TermEntry>, len: Bytes, key: Bytes,
                                         b: Bytes, pos: nat, o: Options, d: nat, at: nat, p: nat)
    requires Accepted(DictTerm(es), o, d) && Length(len, key)
    requires OccursAt(b, pos, [100] + TextEntries(es) + (len + [58] + key))
    requires at == pos + 1 + |TextEntries(es)| && p == at + |len| + 1 + |key|
    ensures var r, v := Decode(b, pos, o, d), Decode(b, p, o, d + 1);
            if o.checkKeySort && es != [] && Precedes(key, es[|es| - 1].key) then r == Err(KeyOrdering(at, key))
            else (exists i :: 0 <= i < |es| && es[i].key == key) ==>
                   r == Err(if v.Err? then v.error else KeyDuplicates(p, key))
  {
    KeyAfter(TextEntries(es), len, key, b, pos, at);
    EntriesParsed(es, o, d);
    var acc := EntriesOf([], es);
    EntriesBefore(es, b, pos + 1, o, d, at, acc);
    KeysRead(es, o.checkKeySort, key, acc);
    KeyOutcome(b, at, o, d, acc, key, p);
    var r := DecodeEntries(b, at, o, d, acc);
    if r.Err? {
      DictFails(b, pos, o, d, r.error);
    }
    if es != [] {
      LessIff(key, es[|es| - 1].key);
    }
  }
}

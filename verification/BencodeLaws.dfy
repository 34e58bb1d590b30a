/** The laws of the decoder: its language, locality, tiling and the shape of what it returns; and the
    terms that values are written as. */
module BencodeLaws {
  import opened ByteStrings
  import opened DecimalText
  import opened Dictionaries
  import opened Bencode
  import opened BencodeGrammar

  // ----- locality -----

  /** At least as much nesting is left, and no ordering check is added. */
  predicate Looser(o: Options, d: nat, o': Options, d': nat) {
    o.maxRecursion - d <= o'.maxRecursion - d' && (o'.checkKeySort ==> o.checkKeySort)
  }

  lemma {:induction false} AcceptedLooser(t: Term, o: Options, d: nat, o': Options, d': nat)
    requires Accepted(t, o, d) && Looser(o, d, o', d')
    ensures Accepted(t, o', d')
    decreases t
  {
    match t
    case IntTerm(_) =>
    case StrTerm(_, _) =>
    case ListTerm(items) =>
      forall i | 0 <= i < |items|
        ensures Accepted(items[i], o', d' + 1)
      {
        AcceptedLooser(items[i], o, d + 1, o', d' + 1);
      }
    case DictTerm(entries) =>
      forall i | 0 <= i < |entries|
        ensures EntryAccepted(entries[i], o', d')
      {
        assert EntryAccepted(entries[i], o, d);
        AcceptedLooser(entries[i].value, o, d + 1, o', d' + 1);
      }
  }

  /** The decoder accepts exactly the language: it succeeds at a position if and only if some accepted
      term occurs there, and then returns that term's node and where it ends. */
  lemma {:induction false} DecodesIff(b: Bytes, pos: nat, o: Options, d: nat)
    ensures Decode(b, pos, o, d).Ok? <==> exists t :: Accepted(t, o, d) && OccursAt(b, pos, Text(t))
    ensures forall t :: Accepted(t, o, d) && OccursAt(b, pos, Text(t)) ==>
              Parsed(t) && Decode(b, pos, o, d) == Ok(NodeOf(t), pos + |Text(t)|)
  {
    if Decode(b, pos, o, d).Ok? {
      var t := Derive(b, pos, o, d);
      assert Accepted(t, o, d) && OccursAt(b, pos, Text(t));
    }
    forall t | Accepted(t, o, d) && OccursAt(b, pos, Text(t))
      ensures Parsed(t) && Decode(b, pos, o, d) == Ok(NodeOf(t), pos + |Text(t)|)
    {
      AcceptedParsed(t, o, d);
      TermDecodes(t, b, pos, o, d);
    }
  }

  /** Locality: the slice a decode consumed decodes to the same node wherever it stands, in any
      buffer, and under any looser options and depth. */
  lemma {:induction false} Relocate(b: Bytes, pos: nat, o: Options, d: nat, c: Bytes, at: nat, o': Options, d': nat)
    requires Decode(b, pos, o, d).Ok? && Looser(o, d, o', d')
    requires OccursAt(c, at, Decode(b, pos, o, d).value.buffer)
    ensures Decode(c, at, o', d') ==
            Ok(Decode(b, pos, o, d).value, at + |Decode(b, pos, o, d).value.buffer|)
  {
    var t := Derive(b, pos, o, d);
    AcceptedLooser(t, o, d, o', d');
    TermDecodes(t, c, at, o', d');
  }

  lemma {:induction false} DecodeLooser(b: Bytes, pos: nat, o: Options, d: nat, o': Options)
    requires Decode(b, pos, o, d).Ok? && Looser(o, d, o', d)
    ensures Decode(b, pos, o', d) == Decode(b, pos, o, d)
  {
    Relocate(b, pos, o, d, b, pos, o', d);
  }

  /** Loosening the options never changes a successful result. */
  lemma {:induction false} LooserOptionsAgree(b: Bytes, o: Options, o': Options)
    requires DecodeBuffer(b, o).Ok?
    requires Looser(o, 0, o', 0) && (o'.enforceFullDecode ==> o.enforceFullDecode)
    ensures DecodeBuffer(b, o') == DecodeBuffer(b, o)
  {
    DecodeLooser(b, 0, o, 0, o');
  }

  function Loosest(o: Options, o': Options): Options {
    Options(if o.maxRecursion < o'.maxRecursion then o'.maxRecursion else o.maxRecursion, false, false)
  }

  /** No accepted encoding is a proper prefix of another, whatever options accepted them. */
  lemma {:induction false} PrefixFree(b: Bytes, o: Options, c: Bytes, o': Options)
    requires Decode(b, 0, o, 0).Ok? && Decode(b, 0, o, 0).next == |b|
    requires Decode(c, 0, o', 0).Ok? && Decode(c, 0, o', 0).next == |c|
    requires b <= c
    ensures b == c
  {
    var loose := Loosest(o, o');
    Relocate(b, 0, o, 0, c, 0, loose, 0);
    Relocate(c, 0, o', 0, c, 0, loose, 0);
  }

  /** Every node of the tree decodes, from its own slice alone, to itself. */
  ghost predicate SelfContained(n: Node, o: Options, d: nat)
    decreases n
  {
    && Decode(n.buffer, 0, o, d) == Ok(n, |n.buffer|)
    && (n.ListNode? ==> forall i :: 0 <= i < |n.items| ==> SelfContained(n.items[i], o, d + 1))
    && (n.DictNode? ==> forall i :: 0 <= i < |n.entries| ==> SelfContained(n.entries[i].value, o, d + 1))
  }

  lemma {:induction false} TermSelfContained(t: Term, o: Options, d: nat)
    requires Accepted(t, o, d) && Parsed(t)
    ensures SelfContained(NodeOf(t), o, d)
    decreases t
  {
    assert Text(t) == Text(t)[0..0 + |Text(t)|];
    TermDecodes(t, Text(t), 0, o, d);
    match t
    case IntTerm(_) =>
    case StrTerm(_, _) =>
    case ListTerm(items) =>
      forall i | 0 <= i < |items|
        ensures SelfContained(NodeOf(items[i]), o, d + 1)
      {
        TermSelfContained(items[i], o, d + 1);
      }
    case DictTerm(entries) =>
      forall i | 0 <= i < |entries|
        ensures SelfContained(NodeOf(entries[i].value), o, d + 1)
      {
        assert EntryAccepted(entries[i], o, d);
        TermSelfContained(entries[i].value, o, d + 1);
      }
      DictEntries(entries);
  }

  /** `buffer()` of the result, and of every node below it, re-decodes alone to that same node. */
  lemma {:induction false} BuffersRedecode(b: Bytes, pos: nat, o: Options, d: nat)
    requires Decode(b, pos, o, d).Ok?
    ensures SelfContained(Decode(b, pos, o, d).value, o, d)
  {
    var t := Derive(b, pos, o, d);
    TermSelfContained(t, o, d);
  }

  ghost function Buffers(ns: seq<Node>): Bytes {
    if ns == [] then [] else ns[0].buffer + Buffers(ns[1..])
  }

  lemma {:induction false} ItemsTile(ts: seq<Term>)
    requires forall i :: 0 <= i < |ts| ==> Parsed(ts[i])
    ensures TextItems(ts) == Buffers(NodesOf(ts))
  {
    if ts != [] {
      ItemsTile(ts[1..]);
    }
  }

  /** The children's slices tile a list's slice between its two markers, in order. */
  lemma {:induction false} ListTiles(b: Bytes, pos: nat, o: Options, d: nat)
    requires Decode(b, pos, o, d).Ok? && Decode(b, pos, o, d).value.ListNode?
    ensures var n := Decode(b, pos, o, d).value; n.buffer == [LIST_START] + Buffers(n.items) + [BEN_END]
  {
    var t := Derive(b, pos, o, d);
    ItemsTile(t.items);
  }

  /** Key texts and value slices tile a dictionary's slice, in input order; the map holds exactly
      those entries, in key order. */
  lemma {:induction false} DictTiles(b: Bytes, pos: nat, o: Options, d: nat) returns (es: seq<TermEntry>)
    requires Decode(b, pos, o, d).Ok? && Decode(b, pos, o, d).value.DictNode?
    ensures forall i :: 0 <= i < |es| ==> Length(es[i].len, es[i].key) && Parsed(es[i].value)
    ensures var n := Decode(b, pos, o, d).value;
            && n.buffer == [DICT_START] + TextEntries(es) + [BEN_END]
            && Ascending(n.entries) && multiset(n.entries) == multiset(PairsOf(es))
  {
    var t := Derive(b, pos, o, d);
    es := t.entries;
    forall i | 0 <= i < |es|
      ensures Length(es[i].len, es[i].key)
    {
      assert EntryAccepted(es[i], o, d);
    }
    DictEntries(es);
  }

  // ----- the shape of results -----

  ghost function PairsOf(es: seq<TermEntry>): (r: seq<Pair<Node>>)
    requires forall i :: 0 <= i < |es| ==> Parsed(es[i].value)
    ensures |r| == |es|
    ensures forall i :: 0 <= i < |es| ==> r[i] == Pair(es[i].key, NodeOf(es[i].value))
  {
    if es == [] then [] else [Pair(es[0].key, NodeOf(es[0].value))] + PairsOf(es[1..])
  }

  /** Inserting new keys one by one builds the map; in ascending order it appends. */
  lemma {:induction false} EntriesOfAscending(acc: seq<Pair<Node>>, es: seq<TermEntry>, sorted: bool)
    requires forall i :: 0 <= i < |es| ==> Parsed(es[i].value)
    requires Ascending(acc) && Continues(acc, es, sorted)
    ensures Ascending(EntriesOf(acc, es))
    ensures multiset(EntriesOf(acc, es)) == multiset(acc + PairsOf(es))
    ensures sorted ==> EntriesOf(acc, es) == acc + PairsOf(es)
    decreases es
  {
    if es == [] {
      assert acc + PairsOf(es) == acc;
    } else {
      var e := Pair(es[0].key, NodeOf(es[0].value));
      FitsNow(acc, es, sorted);
      InsertAscending(acc, e);
      InsertMultiset(acc, e);
      ContinuesNext(acc, es, sorted, e.value);
      if sorted {
        InsertLast(acc, e);
      }
      EntriesOfAscending(Insert(acc, e), es[1..], sorted);
      assert acc + PairsOf(es) == acc + [e] + PairsOf(es[1..]);
    }
  }

  /** The map of a dictionary term: its entries, each once, in key order. */
  lemma {:induction false} DictEntries(es: seq<TermEntry>)
    requires KeysDistinct(es) && forall i :: 0 <= i < |es| ==> Parsed(es[i].value)
    ensures var r := EntriesOf([], es);
            Ascending(r) && multiset(r) == multiset(PairsOf(es)) && forall i :: 0 <= i < |r| ==> r[i] in PairsOf(es)
  {
    EntriesOfAscending([], es, false);
    assert [] + PairsOf(es) == PairsOf(es);
    MemberOf(EntriesOf([], es), PairsOf(es));
  }

  /** A value an encoder can be given, in normal form, of bounded height. */
  ghost predicate Shaped(v: Value, height: int) {
    WellFormed(v) && HeightAtMost(v, height) && Normal(v) == v
  }

  lemma {:induction false} TermShape(t: Term, o: Options, d: nat)
    requires Accepted(t, o, d) && Parsed(t)
    ensures Shaped(Erase(NodeOf(t)), o.maxRecursion - d)
    decreases t, 1
  {
    match t
    case IntTerm(_) =>
    case StrTerm(_, _) =>
    case ListTerm(items) => ListTermShape(t, o, d);
    case DictTerm(entries) => DictTermShape(t, o, d);
  }

  lemma {:induction false} ItemsShape(ts: seq<Term>, o: Options, d: nat)
    requires forall i :: 0 <= i < |ts| ==> Accepted(ts[i], o, d + 1) && Parsed(ts[i])
    ensures forall i :: 0 <= i < |ts| ==> Shaped(Erase(NodesOf(ts)[i]), o.maxRecursion - d - 1)
    decreases ts, 0
  {
    forall i | 0 <= i < |ts|
      ensures Shaped(Erase(NodesOf(ts)[i]), o.maxRecursion - d - 1)
    {
      TermShape(ts[i], o, d + 1);
    }
  }

  lemma {:induction false} ListTermShape(t: Term, o: Options, d: nat)
    requires Accepted(t, o, d) && Parsed(t) && t.ListTerm?
    ensures Shaped(Erase(NodeOf(t)), o.maxRecursion - d)
    decreases t, 0
  {
    ItemsShape(t.items, o, d);
    ListShape(NodesOf(t.items), o.maxRecursion - d);
  }

  /** The shape of one map entry. */
  ghost predicate EntryShaped(p: Pair<Node>, height: int) {
    |p.key| <= I64_MAX && Shaped(Erase(p.value), height)
  }

  lemma {:induction false} EntryShape(e: TermEntry, o: Options, d: nat)
    requires EntryAccepted(e, o, d) && Parsed(e.value)
    ensures EntryShaped(Pair(e.key, NodeOf(e.value)), o.maxRecursion - d - 1)
    decreases e, 1
  {
    TermShape(e.value, o, d + 1);
  }

  lemma {:induction false} EntriesShape(es: seq<TermEntry>, o: Options, d: nat)
    requires forall i :: 0 <= i < |es| ==> EntryAccepted(es[i], o, d) && Parsed(es[i].value)
    ensures forall i :: 0 <= i < |es| ==> EntryShaped(PairsOf(es)[i], o.maxRecursion - d - 1)
    decreases es, 0
  {
    forall i | 0 <= i < |es|
      ensures EntryShaped(PairsOf(es)[i], o.maxRecursion - d - 1)
    {
      EntryShape(es[i], o, d);
    }
  }

  lemma {:induction false} DictTermShape(t: Term, o: Options, d: nat)
    requires Accepted(t, o, d) && Parsed(t) && t.DictTerm?
    ensures Shaped(Erase(NodeOf(t)), o.maxRecursion - d)
    decreases t, 0
  {
    EntriesShape(t.entries, o, d);
    DictOfEntriesShape(t.entries, o.maxRecursion - d);
    ErasedDict(t);
  }

  lemma {:induction false} ErasedDict(t: Term)
    requires t.DictTerm? && Parsed(t)
    ensures Erase(NodeOf(t)) == Dict(EraseEntries(EntriesOf([], t.entries)))
  {
  }

  lemma {:induction false} DictOfEntriesShape(es: seq<TermEntry>, height: int)
    requires 1 <= height && KeysDistinct(es) && forall i :: 0 <= i < |es| ==> Parsed(es[i].value)
    requires forall i :: 0 <= i < |es| ==> EntryShaped(PairsOf(es)[i], height - 1)
    ensures Shaped(Dict(EraseEntries(EntriesOf([], es))), height)
  {
    DictEntries(es);
    ShapeFrom(EntriesOf([], es), PairsOf(es), height);
  }

  lemma {:induction false} ShapeFrom(xs: seq<Pair<Node>>, ys: seq<Pair<Node>>, height: int)
    requires 1 <= height && Ascending(xs) && forall i :: 0 <= i < |xs| ==> xs[i] in ys
    requires forall i :: 0 <= i < |ys| ==> EntryShaped(ys[i], height - 1)
    ensures Shaped(Dict(EraseEntries(xs)), height)
  {
    MembersShaped(xs, ys, height - 1);
    DictShape(xs, height);
  }

  lemma {:induction false} MembersShaped(xs: seq<Pair<Node>>, ys: seq<Pair<Node>>, height: int)
    requires forall i :: 0 <= i < |xs| ==> xs[i] in ys
    requires forall i :: 0 <= i < |ys| ==> EntryShaped(ys[i], height)
    ensures forall i :: 0 <= i < |xs| ==> EntryShaped(xs[i], height)
  {
    forall i | 0 <= i < |xs|
      ensures EntryShaped(xs[i], height)
    {
      assert xs[i] in ys;
    }
  }

  lemma {:induction false} ListShape(ns: seq<Node>, height: int)
    requires 1 <= height && forall i :: 0 <= i < |ns| ==> Shaped(Erase(ns[i]), height - 1)
    ensures Shaped(List(EraseItems(ns)), height)
  {
    NormalItemsFixed(EraseItems(ns));
  }

  lemma {:induction false} NormalItemsFixed(vs: seq<Value>)
    requires forall i :: 0 <= i < |vs| ==> Normal(vs[i]) == vs[i]
    ensures NormalItems(vs) == vs
  {
    if vs != [] {
      NormalItemsFixed(vs[1..]);
    }
  }

  lemma {:induction false} NormalEntriesFixed(es: seq<Pair<Value>>)
    requires forall i :: 0 <= i < |es| ==> Normal(es[i].value) == es[i].value
    ensures NormalEntries(es) == es
  {
    if es != [] {
      NormalEntriesFixed(es[1..]);
    }
  }

  lemma {:induction false} DictShape(r: seq<Pair<Node>>, height: int)
    requires 1 <= height && Ascending(r)
    requires forall i :: 0 <= i < |r| ==> EntryShaped(r[i], height - 1)
    ensures Shaped(Dict(EraseEntries(r)), height)
  {
    var es := EraseEntries(r);
    AscendingDistinct(es);
    SortOfAscending(es);
    NormalEntriesFixed(es);
  }

  /** The value returned has height at most the nesting that was left, its dictionaries are maps in
      key order, its integers fit 64 bits. */
  lemma {:induction false} DecodedShape(b: Bytes, pos: nat, o: Options, d: nat)
    requires Decode(b, pos, o, d).Ok?
    ensures var v := Erase(Decode(b, pos, o, d).value);
            WellFormed(v) && HeightAtMost(v, o.maxRecursion - d) && Normal(v) == v
  {
    var t := Derive(b, pos, o, d);
    TermShape(t, o, d);
  }

  // ----- the encoder's terms -----

  /** The term the encoder writes for a value. */
  ghost function TermOf(v: Value): Term
    decreases Size(v), 1
  {
    match v
    case Int(n) => IntTerm(Decimal(n))
    case Str(s) => StrTerm(Digits(|s|), s)
    case List(items) => ListTerm(TermsOf(items))
    case Dict(entries) => SizeSort(entries); DictTerm(TermEntriesOf(Sort(entries)))
  }

  ghost function TermsOf(vs: seq<Value>): (ts: seq<Term>)
    ensures |ts| == |vs|
    decreases SizeItems(vs), 0
  {
    if vs == [] then [] else [TermOf(vs[0])] + TermsOf(vs[1..])
  }

  ghost function TermEntriesOf(es: seq<Pair<Value>>): (ts: seq<TermEntry>)
    ensures |ts| == |es| && forall i :: 0 <= i < |es| ==> ts[i].key == es[i].key
    decreases SizeEntries(es), 0
  {
    if es == [] then []
    else [TermEntry(Digits(|es[0].key|), es[0].key, TermOf(es[0].value))] + TermEntriesOf(es[1..])
  }

  lemma {:induction false} TextOfTerm(v: Value)
    ensures Text(TermOf(v)) == Encode(v)
    decreases Size(v), 1
  {
    match v
    case Int(_) =>
    case Str(_) =>
    case List(items) => TextOfTerms(items);
    case Dict(entries) =>
      SizeSort(entries);
      TextOfTermEntries(Sort(entries));
  }

  lemma {:induction false} TextOfTerms(vs: seq<Value>)
    ensures TextItems(TermsOf(vs)) == EncodeItems(vs)
    decreases SizeItems(vs), 0
  {
    if vs != [] {
      TextOfTerm(vs[0]);
      TextOfTerms(vs[1..]);
    }
  }

  lemma {:induction false} TextOfTermEntries(es: seq<Pair<Value>>)
    ensures TextEntries(TermEntriesOf(es)) == EncodeEntries(es)
    decreases SizeEntries(es), 0
  {
    if es != [] {
      TextOfTerm(es[0].value);
      TextOfTermEntries(es[1..]);
    }
  }

  lemma {:induction false} LengthText(s: Bytes)
    requires |s| <= I64_MAX
    ensures Length(Digits(|s|), s) && IsDigit(Digits(|s|)[0])
  {
    ParseDecimal(|s|);
  }

  /** A dictionary's entries and its sorted entries have the same members. */
  lemma {:induction false} SortedMembers(es: seq<Pair<Value>>)
    ensures |Sort(es)| == |es|
    ensures forall i :: 0 <= i < |es| ==> Sort(es)[i] in es && es[i] in Sort(es)
  {
    SortMultiset(es);
    MemberOf(Sort(es), es);
    MemberOf(es, Sort(es));
  }

  lemma {:induction false} TermParsed(v: Value)
    requires WellFormed(v)
    ensures Parsed(TermOf(v))
    decreases Size(v), 1
  {
    match v
    case Int(n) => ParseDecimal(n);
    case Str(s) =>
    case List(items) => TermsParsed(items);
    case Dict(entries) =>
      SortedWellFormed(entries);
      TermEntriesParsed(Sort(entries));
  }

  lemma {:induction false} TermsParsed(vs: seq<Value>)
    requires forall i :: 0 <= i < |vs| ==> WellFormed(vs[i])
    ensures forall i :: 0 <= i < |vs| ==> Parsed(TermsOf(vs)[i])
    decreases SizeItems(vs), 0
  {
    if vs != [] {
      TermParsed(vs[0]);
      TermsParsed(vs[1..]);
    }
  }

  lemma {:induction false} TermEntriesParsed(es: seq<Pair<Value>>)
    requires forall i :: 0 <= i < |es| ==> WellFormed(es[i].value)
    ensures forall i :: 0 <= i < |es| ==> Parsed(TermEntriesOf(es)[i].value)
    decreases SizeEntries(es), 0
  {
    if es != [] {
      TermParsed(es[0].value);
      TermEntriesParsed(es[1..]);
    }
  }

  /** The encoder's text of a well-formed value is in the language exactly when the value's height
      fits in the nesting left, with key order checked or not. */
  lemma {:induction false} TermAccepted(v: Value, o: Options, d: nat)
    requires WellFormed(v)
    ensures Accepted(TermOf(v), o, d) <==> HeightAtMost(v, o.maxRecursion - d)
    decreases Size(v), 3
  {
    match v
    case Int(n) => ParseDecimal(n);
    case Str(s) => LengthText(s);
    case List(items) => ListAccepted(items, o, d);
    case Dict(entries) => DictAccepted(entries, o, d);
  }

  lemma {:induction false} SizeOfItem(vs: seq<Value>, i: nat)
    requires i < |vs|
    ensures Size(vs[i]) < SizeItems(vs)
  {
    if i > 0 {
      SizeOfItem(vs[1..], i - 1);
    }
  }

  lemma {:induction false} TermsAt(vs: seq<Value>, i: nat)
    requires i < |vs|
    ensures TermsOf(vs)[i] == TermOf(vs[i])
  {
    if i > 0 {
      TermsAt(vs[1..], i - 1);
    }
  }

  lemma {:induction false} TermEntriesAt(es: seq<Pair<Value>>, i: nat)
    requires i < |es|
    ensures TermEntriesOf(es)[i] == TermEntry(Digits(|es[i].key|), es[i].key, TermOf(es[i].value))
  {
    if i > 0 {
      TermEntriesAt(es[1..], i - 1);
    }
  }

  lemma {:induction false} ItemAccepted(items: seq<Value>, i: nat, o: Options, d: nat)
    requires i < |items| && WellFormed(items[i])
    ensures Accepted(TermsOf(items)[i], o, d + 1) <==> HeightAtMost(items[i], o.maxRecursion - d - 1)
    decreases SizeItems(items), 0
  {
    SizeOfItem(items, i);
    TermsAt(items, i);
    TermAccepted(items[i], o, d + 1);
  }

  lemma {:induction false} ListAccepted(items: seq<Value>, o: Options, d: nat)
    requires WellFormed(List(items))
    ensures Accepted(TermOf(List(items)), o, d) <==> HeightAtMost(List(items), o.maxRecursion - d)
    decreases SizeItems(items), 1
  {
    forall i | 0 <= i < |items|
      ensures Accepted(TermsOf(items)[i], o, d + 1) <==> HeightAtMost(items[i], o.maxRecursion - d - 1)
    {
      ItemAccepted(items, i, o, d);
    }
    ListIff(items, TermsOf(items), o, d);
  }

  lemma {:induction false} ListIff(items: seq<Value>, ts: seq<Term>, o: Options, d: nat)
    requires |ts| == |items|
    requires forall i :: 0 <= i < |items| ==>
               (Accepted(ts[i], o, d + 1) <==> HeightAtMost(items[i], o.maxRecursion - d - 1))
    ensures Accepted(ListTerm(ts), o, d) <==> HeightAtMost(List(items), o.maxRecursion - d)
  {
  }

  lemma {:induction false} EntryAcceptedIff(es: seq<Pair<Value>>, i: nat, o: Options, d: nat)
    requires i < |es| && |es[i].key| <= I64_MAX && WellFormed(es[i].value)
    ensures EntryAccepted(TermEntriesOf(es)[i], o, d) <==> HeightAtMost(es[i].value, o.maxRecursion - d - 1)
    decreases SizeEntries(es), 0
  {
    SizeMember(es, i);
    TermEntriesAt(es, i);
    LengthText(es[i].key);
    TermAccepted(es[i].value, o, d + 1);
  }

  lemma {:induction false} SortedWellFormed(es: seq<Pair<Value>>)
    requires WellFormed(Dict(es))
    ensures Ascending(Sort(es)) && SizeEntries(Sort(es)) == SizeEntries(es)
    ensures forall i :: 0 <= i < |Sort(es)| ==> |Sort(es)[i].key| <= I64_MAX && WellFormed(Sort(es)[i].value)
  {
    SortAscending(es);
    SizeSort(es);
    var sorted := Sort(es);
    SortedMembers(es);
    forall i | 0 <= i < |sorted|
      ensures |sorted[i].key| <= I64_MAX && WellFormed(sorted[i].value)
    {
      assert sorted[i] in es;
    }
  }

  lemma {:induction false} DictAccepted(entries: seq<Pair<Value>>, o: Options, d: nat)
    requires WellFormed(Dict(entries))
    ensures Accepted(TermOf(Dict(entries)), o, d) <==> HeightAtMost(Dict(entries), o.maxRecursion - d)
    decreases SizeEntries(entries), 2
  {
    var es := Sort(entries);
    SortedWellFormed(entries);
    SortedDictAccepted(es, o, d);
    SortedAgrees(entries, es, o, d);
  }

  lemma {:induction false} SortedAgrees(entries: seq<Pair<Value>>, es: seq<Pair<Value>>, o: Options, d: nat)
    requires es == Sort(entries)
    ensures Accepted(TermOf(Dict(entries)), o, d) <==> Accepted(DictTerm(TermEntriesOf(es)), o, d)
    ensures HeightAtMost(Dict(entries), o.maxRecursion - d) <==> HeightAtMost(Dict(es), o.maxRecursion - d)
  {
    TermOfDict(entries, es);
    SameHeights(entries, es, o.maxRecursion - d);
  }

  lemma {:induction false} TermOfDict(entries: seq<Pair<Value>>, es: seq<Pair<Value>>)
    requires es == Sort(entries)
    ensures TermOf(Dict(entries)) == DictTerm(TermEntriesOf(es))
  {
  }

  lemma {:induction false} SortedDictAccepted(es: seq<Pair<Value>>, o: Options, d: nat)
    requires Ascending(es)
    requires forall i :: 0 <= i < |es| ==> |es[i].key| <= I64_MAX && WellFormed(es[i].value)
    ensures Accepted(DictTerm(TermEntriesOf(es)), o, d) <==> HeightAtMost(Dict(es), o.maxRecursion - d)
    decreases SizeEntries(es), 1
  {
    forall i | 0 <= i < |es|
      ensures EntryAccepted(TermEntriesOf(es)[i], o, d) <==> HeightAtMost(es[i].value, o.maxRecursion - d - 1)
    {
      EntryAcceptedIff(es, i, o, d);
    }
    DictIff(es, TermEntriesOf(es), o, d);
  }

  lemma {:induction false} DictIff(es: seq<Pair<Value>>, ts: seq<TermEntry>, o: Options, d: nat)
    requires Ascending(es) && |ts| == |es| && forall i :: 0 <= i < |es| ==> ts[i].key == es[i].key
    requires forall i :: 0 <= i < |es| ==>
               (EntryAccepted(ts[i], o, d) <==> HeightAtMost(es[i].value, o.maxRecursion - d - 1))
    ensures Accepted(DictTerm(ts), o, d) <==> HeightAtMost(Dict(es), o.maxRecursion - d)
  {
    AscendingDistinct(es);
  }

  lemma {:induction false} SameHeights(es: seq<Pair<Value>>, sorted: seq<Pair<Value>>, height: int)
    requires sorted == Sort(es)
    ensures HeightAtMost(Dict(es), height) <==> HeightAtMost(Dict(sorted), height)
  {
    SortedMembers(es);
  }

  /** The node of the encoder's text is the value itself, as maps. */
  lemma {:induction false} EraseTerm(v: Value)
    requires WellFormed(v) && Parsed(TermOf(v))
    ensures Erase(NodeOf(TermOf(v))) == Normal(v)
    decreases Size(v), 1
  {
    match v
    case Int(n) => ParseDecimal(n);
    case Str(s) =>
    case List(items) => EraseTerms(items);
    case Dict(entries) =>
      SortedWellFormed(entries);
      EraseSortedDict(Sort(entries));
  }

  lemma {:induction false} EraseTerms(vs: seq<Value>)
    requires forall i :: 0 <= i < |vs| ==> WellFormed(vs[i])
    requires forall i :: 0 <= i < |vs| ==> Parsed(TermsOf(vs)[i])
    ensures EraseItems(NodesOf(TermsOf(vs))) == NormalItems(vs)
    decreases SizeItems(vs), 0
  {
    if vs != [] {
      assert TermsOf(vs)[0] == TermOf(vs[0]) && TermsOf(vs)[1..] == TermsOf(vs[1..]);
      EraseTerm(vs[0]);
      EraseTerms(vs[1..]);
    }
  }

  lemma {:induction false} EraseSortedDict(es: seq<Pair<Value>>)
    requires Ascending(es)
    requires forall i :: 0 <= i < |es| ==> WellFormed(es[i].value)
    requires forall i :: 0 <= i < |es| ==> Parsed(TermEntriesOf(es)[i].value)
    ensures EraseEntries(EntriesOf([], TermEntriesOf(es))) == NormalEntries(es)
    decreases SizeEntries(es), 1
  {
    var ts := TermEntriesOf(es);
    AscendingDistinct(es);
    EntriesOfAscending([], ts, true);
    assert [] + PairsOf(ts) == PairsOf(ts);
    EraseTermEntries(es);
  }

  lemma {:induction false} EraseTermEntries(es: seq<Pair<Value>>)
    requires forall i :: 0 <= i < |es| ==> WellFormed(es[i].value)
    requires forall i :: 0 <= i < |es| ==> Parsed(TermEntriesOf(es)[i].value)
    ensures EraseEntries(PairsOf(TermEntriesOf(es))) == NormalEntries(es)
    decreases SizeEntries(es), 0
  {
    if es != [] {
      var ts := TermEntriesOf(es);
      assert ts[0].value == TermOf(es[0].value) && ts[1..] == TermEntriesOf(es[1..]);
      EraseTerm(es[0].value);
      EraseTermEntries(es[1..]);
    }
  }
}

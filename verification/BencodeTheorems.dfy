/** Round trip and canonical form: the main results about the codec. */
module BencodeTheorems {
  import opened Wrappers
  import opened ByteStrings
  import opened DecimalText
  import opened Dictionaries
  import opened Bencode
  import opened BencodeGrammar
  import opened BencodeLaws

  // ----- round trip -----

  /** A value's encoding, wherever it stands, decodes to that value and ends where it ends. */
  lemma {:induction false} RoundTripAt(v: Value, b: Bytes, pos: nat, o: Options, d: nat)
    requires WellFormed(v) && HeightAtMost(v, o.maxRecursion - d) && OccursAt(b, pos, Encode(v))
    ensures var r := Decode(b, pos, o, d);
            r.Ok? && r.next == pos + |Encode(v)| && Erase(r.value) == Normal(v) && r.value.buffer == Encode(v)
  {
    TermParsed(v);
    TermAccepted(v, o, d);
    TextOfTerm(v);
    EraseTerm(v);
    TermDecodes(TermOf(v), b, pos, o, d);
  }

  lemma {:induction false} HeightBySize(v: Value, height: int)
    requires Size(v) <= height
    ensures HeightAtMost(v, height)
    decreases Size(v)
  {
    match v
    case Int(_) =>
    case Str(_) =>
    case List(items) =>
      forall i | 0 <= i < |items|
        ensures HeightAtMost(items[i], height - 1)
      {
        SizeOfItem(items, i);
        HeightBySize(items[i], height - 1);
      }
    case Dict(entries) =>
      forall i | 0 <= i < |entries|
        ensures HeightAtMost(entries[i].value, height - 1)
      {
        SizeMember(entries, i);
        HeightBySize(entries[i].value, height - 1);
      }
  }

  lemma {:induction false} NormalHeight(v: Value, height: int)
    requires HeightAtMost(Normal(v), height)
    ensures HeightAtMost(v, height)
    decreases Size(v), 1
  {
    match v
    case Int(_) =>
    case Str(_) =>
    case List(items) => NormalItemsHeight(items, height - 1);
    case Dict(entries) =>
      var es := Sort(entries);
      SizeSort(entries);
      NormalEntriesHeight(es, height - 1);
      SameHeights(entries, es, height);
  }

  lemma {:induction false} NormalItemsHeight(vs: seq<Value>, height: int)
    requires forall i :: 0 <= i < |NormalItems(vs)| ==> HeightAtMost(NormalItems(vs)[i], height)
    ensures forall i :: 0 <= i < |vs| ==> HeightAtMost(vs[i], height)
    decreases SizeItems(vs), 0
  {
    if vs != [] {
      assert NormalItems(vs)[0] == Normal(vs[0]) && NormalItems(vs)[1..] == NormalItems(vs[1..]);
      NormalHeight(vs[0], height);
      NormalItemsHeight(vs[1..], height);
    }
  }

  lemma {:induction false} NormalEntriesHeight(es: seq<Pair<Value>>, height: int)
    requires forall i :: 0 <= i < |es| ==> HeightAtMost(NormalEntries(es)[i].value, height)
    ensures forall i :: 0 <= i < |es| ==> HeightAtMost(es[i].value, height)
    decreases SizeEntries(es), 0
  {
    if es != [] {
      var ns := NormalEntries(es);
      assert ns[0].value == Normal(es[0].value) && ns[1..] == NormalEntries(es[1..]);
      NormalHeight(es[0].value, height);
      NormalEntriesHeight(es[1..], height);
    }
  }

  /** The node read at an occurrence of an encoding is the encoded value's, whatever the options. */
  lemma {:induction false} DecodedIsEncoded(v: Value, b: Bytes, pos: nat, o: Options, d: nat)
    requires WellFormed(v) && OccursAt(b, pos, Encode(v)) && Decode(b, pos, o, d).Ok?
    ensures Erase(Decode(b, pos, o, d).value) == Normal(v)
  {
    var wide := Options(o.maxRecursion + d + Size(v), false, false);
    HeightBySize(v, wide.maxRecursion - d);
    RoundTripAt(v, b, pos, wide, d);
    DecodeLooser(b, pos, o, d, wide);
  }

  lemma {:induction false} DecodedHeight(v: Value, o: Options)
    requires WellFormed(v) && Decode(Encode(v), 0, o, 0).Ok?
    ensures HeightAtMost(v, o.maxRecursion)
  {
    assert OccursAt(Encode(v), 0, Encode(v));
    DecodedIsEncoded(v, Encode(v), 0, o, 0);
    DecodedShape(Encode(v), 0, o, 0);
    NormalHeight(v, o.maxRecursion);
  }

  /** Round trip: decoding an encoding succeeds, consumes every byte and returns the value, exactly
      when the value's nesting height is at most `max_recursion`; key-sort checking makes no difference. */
  lemma {:induction false} RoundTrip(v: Value, o: Options)
    requires WellFormed(v)
    ensures DecodeBuffer(Encode(v), o).Ok? <==> HeightAtMost(v, o.maxRecursion)
    ensures HeightAtMost(v, o.maxRecursion) ==>
              && DecodeBuffer(Encode(v), o).next == |Encode(v)|
              && Erase(DecodeBuffer(Encode(v), o).value) == Normal(v)
  {
    assert OccursAt(Encode(v), 0, Encode(v));
    if HeightAtMost(v, o.maxRecursion) {
      RoundTripAt(v, Encode(v), 0, o, 0);
    }
    if DecodeBuffer(Encode(v), o).Ok? {
      DecodedHeight(v, o);
    }
  }

  /** The encoding of a dictionary does not depend on the order in which its entries are listed. */
  lemma {:induction false} EncodingIgnoresListing(es: seq<Pair<Value>>, fs: seq<Pair<Value>>)
    requires DistinctKeys(es) && DistinctKeys(fs) && multiset(es) == multiset(fs)
    ensures Encode(Dict(es)) == Encode(Dict(fs)) && Normal(Dict(es)) == Normal(Dict(fs))
  {
    SortAscending(es);
    SortAscending(fs);
    SortMultiset(es);
    SortMultiset(fs);
    AscendingUnique(Sort(es), Sort(fs));
  }

  /** Each key is followed by one that first differs from it at a larger byte, or extends it. */
  ghost predicate KeysPrecede(es: seq<Pair<Value>>) {
    forall i :: 0 < i < |es| ==> Precedes(es[i - 1].key, es[i].key)
  }

  /** An encoded dictionary consists of its entries in byte order of the keys, between `d` and `e`. */
  lemma {:induction false} EncodedKeyOrder(es: seq<Pair<Value>>)
    requires DistinctKeys(es)
    ensures exists fs :: multiset(fs) == multiset(es) && KeysPrecede(fs) &&
                         Encode(Dict(es)) == [100] + EncodeEntries(fs) + [101]
  {
    var fs := Sort(es);
    SortMultiset(es);
    SortAscending(es);
    forall i | 0 < i < |fs|
      ensures Precedes(fs[i - 1].key, fs[i].key)
    {
      LessIff(fs[i - 1].key, fs[i].key);
    }
    assert KeysPrecede(fs);
  }

  /** The same of the entries as they stand in a text. */
  ghost predicate TermKeysPrecede(es: seq<TermEntry>) {
    forall i :: 0 < i < |es| ==> Precedes(es[i - 1].key, es[i].key)
  }

  lemma {:induction false} AdjacentKeys(es: seq<TermEntry>, i: nat, j: nat)
    requires TermKeysPrecede(es) && i < j < |es|
    ensures Less(es[i].key, es[j].key) && es[i].key != es[j].key
    decreases j
  {
    LessIff(es[j - 1].key, es[j].key);
    if i < j - 1 {
      AdjacentKeys(es, i, j - 1);
      LessTransitive(es[i].key, es[j - 1].key, es[j].key);
    }
    LessIrreflexive(es[i].key);
  }

  /** With the order check on, exactly the dictionaries are accepted whose entries are, and whose keys are
      in strict byte order. */
  lemma {:induction false} StrictKeyOrder(es: seq<TermEntry>, o: Options, d: nat)
    requires o.checkKeySort
    ensures Accepted(DictTerm(es), o, d) <==>
            && d < o.maxRecursion && TermKeysPrecede(es)
            && forall i :: 0 <= i < |es| ==> EntryAccepted(es[i], o, d)
  {
    if KeysAscending(es) {
      forall i | 0 < i < |es|
        ensures Precedes(es[i - 1].key, es[i].key)
      {
        LessIff(es[i - 1].key, es[i].key);
      }
    }
    if TermKeysPrecede(es) {
      forall i, j | 0 <= i < j < |es|
        ensures Less(es[i].key, es[j].key) && es[i].key != es[j].key
      {
        AdjacentKeys(es, i, j);
      }
    }
  }

  // ----- an example, byte by byte -----

  lemma {:induction false} EncodedNumbers()
    ensures EncodeInt(1) == [105, 49, 101] && EncodeInt(-12) == [105, 45, 49, 50, 101]
    ensures EncodeStr([120, 121, 122]) == [51, 58, 120, 121, 122]
    ensures forall c: Byte :: EncodeStr([c]) == [49, 58, c]
  {
    assert Digits(1) == [49] && Digits(3) == [51] && Digits(12) == [49, 50];
  }

  lemma {:induction false} EncodedList()
    ensures Encode(List([Int(-12), Str([120, 121, 122])])) ==
            [108, 105, 45, 49, 50, 101, 51, 58, 120, 121, 122, 101]
  {
    EncodedNumbers();
    var vs := [Int(-12), Str([120, 121, 122])];
    assert vs[1..] == [vs[1]] && vs[1..][1..] == [];
    assert EncodeItems(vs[1..]) == Encode(vs[1]) + [];
  }

  lemma {:induction false} EncodedTwo(x: Pair<Value>, y: Pair<Value>)
    requires !Less(x.key, y.key)
    ensures Encode(Dict([x, y])) ==
            [100] + EncodeStr(y.key) + Encode(y.value) + EncodeStr(x.key) + Encode(x.value) + [101]
  {
    SortTwo(x, y);
    EntriesOfTwo(y, x);
  }

  lemma {:induction false} EntriesOfTwo(x: Pair<Value>, y: Pair<Value>)
    ensures EncodeEntries([x, y]) == EncodeStr(x.key) + Encode(x.value) + EncodeStr(y.key) + Encode(y.value)
  {
    assert [x, y][1..] == [y];
    assert EncodeEntries([y][1..]) == [];
    assert EncodeEntries([y]) == EncodeStr(y.key) + Encode(y.value);
  }

  lemma {:induction false} SortTwo(x: Pair<Value>, y: Pair<Value>)
    requires !Less(x.key, y.key)
    ensures Sort([x, y]) == [y, x]
  {
    var none: seq<Pair<Value>> := [];
    assert [x, y][1..] == [y] && [y][1..] == none;
    assert Sort([y]) == Insert(none, y) == [y];
    assert Insert([y], x) == [y] + Insert(none, x);
  }

  /** The mapping of `b` to the list of -12 and `xyz`, and of `a` to 1, is
      `d1:ai1e1:bli-12e3:xyzee`. */
  lemma {:induction false} EncodedExample()
    ensures Encode(Dict([Pair([98], List([Int(-12), Str([120, 121, 122])])), Pair([97], Int(1))])) ==
            [100, 49, 58, 97, 105, 49, 101, 49, 58, 98, 108, 105, 45, 49, 50, 101, 51, 58, 120, 121, 122, 101, 101]
  {
    EncodedList();
    EncodedNumbers();
    assert Less([97], [98]) && !Less([98], [97]);
    EncodedTwo(Pair([98], List([Int(-12), Str([120, 121, 122])])), Pair([97], Int(1)));
    ExampleBytes([49, 58, 97], [105, 49, 101], [49, 58, 98], [108, 105, 45, 49, 50, 101, 51, 58, 120, 121, 122, 101]);
  }

  lemma ExampleBytes(k: Bytes, v: Bytes, l: Bytes, w: Bytes)
    requires k == [49, 58, 97] && v == [105, 49, 101] && l == [49, 58, 98]
    requires w == [108, 105, 45, 49, 50, 101, 51, 58, 120, 121, 122, 101]
    ensures [100] + k + v + l + w + [101] ==
            [100, 49, 58, 97, 105, 49, 101, 49, 58, 98, 108, 105, 45, 49, 50, 101, 51, 58, 120, 121, 122, 101, 101]
  {
  }

  /** The integers are those of 64 bits. */
  lemma {:induction false} IntegerRange(n: int)
    ensures WellFormed(Int(n)) <==> -9223372036854775808 <= n <= 9223372036854775807
  {
  }

  lemma {:induction false} StartsWithEncoding(v: Value, b: Bytes, o: Options)
    requires WellFormed(v) && Encode(v) <= b && Size(v) <= o.maxRecursion
    ensures var r := Decode(b, 0, o, 0); r.Ok? && r.next == |Encode(v)| && Erase(r.value) == Normal(v)
  {
    HeightBySize(v, o.maxRecursion);
    assert OccursAt(b, 0, Encode(v));
    RoundTripAt(v, b, 0, o, 0);
  }

  /** Encodings determine values: no encoding is a prefix of the encoding of a different value. */
  lemma {:induction false} EncodingsPrefixFree(v: Value, w: Value)
    requires WellFormed(v) && WellFormed(w) && Encode(v) <= Encode(w)
    ensures Normal(v) == Normal(w) && Encode(v) == Encode(w)
  {
    var o := Options(Size(v) + Size(w), true, true);
    StartsWithEncoding(v, Encode(w), o);
    StartsWithEncoding(w, Encode(w), o);
    assert Encode(w)[..|Encode(v)|] == Encode(v);
  }

  /** Decoding, encoding and decoding again gives the value of the first decoding, for every
      accepted buffer under any options. */
  lemma {:induction false} DecodeEncodeDecode(b: Bytes, o: Options)
    requires DecodeBuffer(b, o).Ok?
    ensures var v := Erase(DecodeBuffer(b, o).value);
            DecodeBuffer(Encode(v), o).Ok? && Erase(DecodeBuffer(Encode(v), o).value) == v
  {
    DecodedShape(b, 0, o, 0);
    RoundTrip(Erase(DecodeBuffer(b, o).value), o);
  }

  // ----- canonical form -----

  ghost predicate Signed(text: Bytes) { text != [] && text[0] == PLUS }

  /** No integer and no key length is written with a `+`. */
  ghost predicate PlusFree(t: Term)
    decreases t
  {
    match t
    case IntTerm(text) => !Signed(text)
    case StrTerm(_, _) => true
    case ListTerm(items) => PlusFreeItems(items)
    case DictTerm(entries) => PlusFreeEntries(entries)
  }

  ghost predicate PlusFreeItems(ts: seq<Term>)
    decreases ts
  {
    ts == [] || (PlusFree(ts[0]) && PlusFreeItems(ts[1..]))
  }

  ghost predicate PlusFreeEntries(es: seq<TermEntry>)
    decreases es
  {
    es == [] || (!Signed(es[0].len) && PlusFree(es[0].value) && PlusFreeEntries(es[1..]))
  }

  /** A `+`-free strict term is the one the encoder writes; any other is longer than it. */
  ghost predicate Canonical(t: Term)
    requires Parsed(t)
  {
    var v := Erase(NodeOf(t));
    if PlusFree(t) then Encode(v) == Text(t) else |Encode(v)| < |Text(t)|
  }

  lemma {:induction false} CanonicalTerm(t: Term, o: Options, d: nat)
    requires Accepted(t, o, d) && Parsed(t) && o.checkKeySort
    ensures Canonical(t)
    decreases t, 1
  {
    match t
    case IntTerm(text) => DecimalOfParse(text);
    case StrTerm(len, s) => DecimalOfParse(len);
    case ListTerm(items) => CanonicalItems(items, o, d);
    case DictTerm(entries) => CanonicalDict(entries, o, d);
  }

  lemma {:induction false} CanonicalItems(ts: seq<Term>, o: Options, d: nat)
    requires forall i :: 0 <= i < |ts| ==> Accepted(ts[i], o, d + 1) && Parsed(ts[i])
    requires o.checkKeySort
    ensures var vs := EraseItems(NodesOf(ts));
            if PlusFreeItems(ts) then EncodeItems(vs) == TextItems(ts) else |EncodeItems(vs)| < |TextItems(ts)|
    decreases ts, 0
  {
    if ts != [] {
      CanonicalTerm(ts[0], o, d + 1);
      CanonicalItems(ts[1..], o, d);
      assert EraseItems(NodesOf(ts)) == [Erase(NodeOf(ts[0]))] + EraseItems(NodesOf(ts[1..]));
    }
  }

  lemma {:induction false} CanonicalEntries(es: seq<TermEntry>, o: Options, d: nat)
    requires forall i :: 0 <= i < |es| ==> EntryAccepted(es[i], o, d) && Parsed(es[i].value)
    requires o.checkKeySort
    ensures var vs := EraseEntries(PairsOf(es));
            if PlusFreeEntries(es) then EncodeEntries(vs) == TextEntries(es)
            else |EncodeEntries(vs)| < |TextEntries(es)|
    decreases es, 0
  {
    if es != [] {
      DecimalOfParse(es[0].len);
      CanonicalTerm(es[0].value, o, d + 1);
      CanonicalEntries(es[1..], o, d);
      assert EraseEntries(PairsOf(es)) ==
             [Pair(es[0].key, Erase(NodeOf(es[0].value)))] + EraseEntries(PairsOf(es[1..]));
    }
  }

  lemma {:induction false} EncodeAscending(es: seq<Pair<Value>>)
    requires Ascending(es)
    ensures Encode(Dict(es)) == [DICT_START] + EncodeEntries(es) + [BEN_END]
  {
    SortOfAscending(es);
  }

  lemma {:induction false} StrictDictNode(es: seq<TermEntry>)
    requires Parsed(DictTerm(es)) && KeysAscending(es) && KeysDistinct(es)
    ensures EntriesOf([], es) == PairsOf(es)
  {
    EntriesOfAscending([], es, true);
    assert [] + PairsOf(es) == PairsOf(es);
  }

  lemma {:induction false} ErasedAscending(es: seq<TermEntry>)
    requires Parsed(DictTerm(es)) && KeysAscending(es)
    ensures Ascending(EraseEntries(PairsOf(es)))
  {
  }

  lemma {:induction false} CanonicalDict(es: seq<TermEntry>, o: Options, d: nat)
    requires Accepted(DictTerm(es), o, d) && Parsed(DictTerm(es)) && o.checkKeySort
    ensures Canonical(DictTerm(es))
    decreases es, 1
  {
    StrictDictNode(es);
    ErasedAscending(es);
    EncodeAscending(EraseEntries(PairsOf(es)));
    CanonicalEntries(es, o, d);
  }

  /** Canonical form: when strict decoding accepts a whole buffer, the buffer is the text of an accepted
      term; and for every such term, re-encoding the result gives back exactly the buffer if and only if
      no integer and no key length in the term is written with a `+`. Otherwise it is strictly shorter. */
  lemma {:induction false} CanonicalForm(b: Bytes, o: Options)
    requires DecodeBuffer(b, o).Ok? && o.checkKeySort && o.enforceFullDecode
    ensures exists t :: Accepted(t, o, 0) && Text(t) == b
    ensures var v := Erase(DecodeBuffer(b, o).value);
            forall t :: Accepted(t, o, 0) && Text(t) == b ==>
              (Encode(v) == b <==> PlusFree(t)) && (!PlusFree(t) ==> |Encode(v)| < |b|)
  {
    assert b == b[0..|b|];
    var t := Derive(b, 0, o, 0);
    assert Accepted(t, o, 0) && Text(t) == b;
    forall t | Accepted(t, o, 0) && Text(t) == b
      ensures var v := Erase(DecodeBuffer(b, o).value);
              (Encode(v) == b <==> PlusFree(t)) && (!PlusFree(t) ==> |Encode(v)| < |b|)
    {
      CanonicalAs(b, o, t);
    }
  }

  /** The options that also check the order of keys. */
  function Strict(o: Options): Options { Options(o.maxRecursion, true, true) }

  lemma {:induction false} StrictAgrees(b: Bytes, o: Options)
    requires DecodeBuffer(b, Strict(o)).Ok? && o.enforceFullDecode
    ensures DecodeBuffer(b, o) == DecodeBuffer(b, Strict(o))
  {
    LooserOptionsAgree(b, Strict(o), o);
  }

  /** Canonical form under any options: a buffer decoded in full is its own re-encoding if and only if
      it is the text of a term that strict decoding accepts and that has no `+`. */
  lemma {:induction false} CanonicalIff(b: Bytes, o: Options)
    requires DecodeBuffer(b, o).Ok? && o.enforceFullDecode
    ensures Encode(Erase(DecodeBuffer(b, o).value)) == b <==>
            exists t :: Accepted(t, Strict(o), 0) && Text(t) == b && PlusFree(t)
  {
    if Encode(Erase(DecodeBuffer(b, o).value)) == b {
      OwnEncodingIsStrict(b, o);
      StrictAgrees(b, o);
      CanonicalForm(b, Strict(o));
    }
    if t :| Accepted(t, Strict(o), 0) && Text(t) == b && PlusFree(t) {
      StrictTextDecodes(b, o, t);
      StrictAgrees(b, o);
      CanonicalAs(b, Strict(o), t);
    }
  }

  lemma {:induction false} OwnEncodingIsStrict(b: Bytes, o: Options)
    requires DecodeBuffer(b, o).Ok? && Encode(Erase(DecodeBuffer(b, o).value)) == b
    ensures DecodeBuffer(b, Strict(o)).Ok?
  {
    DecodedShape(b, 0, o, 0);
    RoundTrip(Erase(DecodeBuffer(b, o).value), Strict(o));
  }

  lemma {:induction false} StrictTextDecodes(b: Bytes, o: Options, t: Term)
    requires Accepted(t, Strict(o), 0) && Text(t) == b
    ensures DecodeBuffer(b, Strict(o)).Ok?
  {
    assert OccursAt(b, 0, Text(t)) by {
      assert b == b[0..|b|];
    }
    AcceptedParsed(t, Strict(o), 0);
    TermDecodes(t, b, 0, Strict(o), 0);
  }

  lemma {:induction false} CanonicalAs(b: Bytes, o: Options, t: Term)
    requires DecodeBuffer(b, o).Ok? && o.checkKeySort && Accepted(t, o, 0) && Text(t) == b
    ensures var v := Erase(DecodeBuffer(b, o).value);
            (Encode(v) == b <==> PlusFree(t)) && (!PlusFree(t) ==> |Encode(v)| < |b|)
  {
    assert OccursAt(b, 0, Text(t)) by {
      assert b == b[0..|b|];
    }
    AcceptedParsed(t, o, 0);
    TermDecodes(t, b, 0, o, 0);
    CanonicalTerm(t, o, 0);
  }

  /** `i+5e` is accepted, and re-encodes to the shorter `i5e`. */
  lemma {:induction false} SignedIntegerIsNotCanonical()
    ensures var b := [105, 43, 53, 101];
            var r := DecodeBuffer(b, Options(1, true, true));
            r.Ok? && Encode(Erase(r.value)) == [105, 53, 101]
  {
    var b := [105, 43, 53, 101];
    var t := IntTerm([PLUS, 53]);
    assert Text(t) == b && b == b[0..0 + |b|];
    assert [PLUS, 53][1..] == [53] && DigitsValue([53]) == DigitsValue([53][..0]) * 10 + 5;
    assert ParseI64([PLUS, 53]) == Some(5);
    TermDecodes(t, b, 0, Options(1, true, true), 0);
  }

  lemma {:induction false} NoPlusByte(t: Term)
    requires PLUS !in Text(t)
    ensures PlusFree(t)
    decreases t, 1
  {
    match t
    case IntTerm(text) =>
      assert text != [] ==> Text(t)[1] == text[0];
    case StrTerm(_, _) =>
    case ListTerm(items) => NoPlusItems(items);
    case DictTerm(entries) => NoPlusEntries(entries);
  }

  lemma {:induction false} NoPlusItems(ts: seq<Term>)
    requires PLUS !in TextItems(ts)
    ensures PlusFreeItems(ts)
    decreases ts, 0
  {
    if ts != [] {
      NoPlusByte(ts[0]);
      NoPlusItems(ts[1..]);
    }
  }

  lemma {:induction false} NoPlusEntries(es: seq<TermEntry>)
    requires PLUS !in TextEntries(es)
    ensures PlusFreeEntries(es)
    decreases es, 0
  {
    if es != [] {
      assert es[0].len != [] ==> TextEntries(es)[0] == es[0].len[0];
      NoPlusByte(es[0].value);
      NoPlusEntries(es[1..]);
    }
  }

  /** A buffer without the byte `+` that strict decoding accepts is its own re-encoding. */
  lemma {:induction false} PlainBufferIsCanonical(b: Bytes, o: Options)
    requires DecodeBuffer(b, o).Ok? && o.checkKeySort && o.enforceFullDecode && PLUS !in b
    ensures Encode(Erase(DecodeBuffer(b, o).value)) == b
  {
    CanonicalForm(b, o);
    var t :| Accepted(t, o, 0) && Text(t) == b;
    NoPlusByte(t);
  }
}

/** The language the decoder accepts, as terms independent of any buffer or position.
    A term keeps the number texts as written and the dictionary entries in input order. */
module BencodeGrammar {
  import opened Wrappers
  import opened ByteStrings
  import opened DecimalText
  import opened Dictionaries
  import opened Bencode

  datatype Term =
    | IntTerm(text: Bytes)
    | StrTerm(len: Bytes, s: Bytes)
    | ListTerm(items: seq<Term>)
    | DictTerm(entries: seq<TermEntry>)

  datatype TermEntry = TermEntry(len: Bytes, key: Bytes, value: Term)

  /** The bytes of a term. */
  ghost function Text(t: Term): (b: Bytes)
    decreases t
  {
    match t
    case IntTerm(text) => [INT_START] + text + [BEN_END]
    case StrTerm(len, s) => len + [BYTE_LEN_END] + s
    case ListTerm(items) => [LIST_START] + TextItems(items) + [BEN_END]
    case DictTerm(entries) => [DICT_START] + TextEntries(entries) + [BEN_END]
  }

  ghost function TextItems(ts: seq<Term>): Bytes
    decreases ts
  {
    if ts == [] then [] else Text(ts[0]) + TextItems(ts[1..])
  }

  ghost function KeyText(e: TermEntry): Bytes { e.len + [BYTE_LEN_END] + e.key }

  ghost function TextEntries(es: seq<TermEntry>): Bytes
    decreases es
  {
    if es == [] then [] else KeyText(es[0]) + Text(es[0].value) + TextEntries(es[1..])
  }

  /** A number text: signed either way, not zero padded, not a negative zero. */
  predicate Number(s: Bytes) {
    ParseI64(s).Some? && (|s| > 1 ==> s[0] != ZERO && !(s[0] == MINUS && s[1] == ZERO))
  }

  predicate Length(len: Bytes, s: Bytes) { Number(len) && ParseI64(len) == Some(|s|) }

  ghost predicate KeysDistinct(es: seq<TermEntry>) {
    forall i, j :: 0 <= i < j < |es| ==> es[i].key != es[j].key
  }

  ghost predicate KeysAscending(es: seq<TermEntry>) {
    forall i, j :: 0 <= i < j < |es| ==> Less(es[i].key, es[j].key)
  }

  /** Membership in the language, at nesting level `d`. A string value starts with a digit,
      a dictionary key may also start with a `+`. */
  ghost predicate Accepted(t: Term, o: Options, d: nat)
    decreases t
  {
    d < o.maxRecursion &&
    match t
    case IntTerm(text) => Number(text)
    case StrTerm(len, s) => Length(len, s) && IsDigit(len[0])
    case ListTerm(items) => forall i :: 0 <= i < |items| ==> Accepted(items[i], o, d + 1)
    case DictTerm(entries) =>
      && KeysDistinct(entries)
      && (o.checkKeySort ==> KeysAscending(entries))
      && forall i :: 0 <= i < |entries| ==> EntryAccepted(entries[i], o, d)
  }

  ghost predicate EntryAccepted(e: TermEntry, o: Options, d: nat)
    decreases e
  {
    Length(e.len, e.key) && Accepted(e.value, o, d + 1)
  }

  /** The node a term denotes. */
  ghost function NodeOf(t: Term): (n: Node)
    requires Parsed(t)
    ensures n.buffer == Text(t)
    decreases t
  {
    match t
    case IntTerm(text) => IntNode(ParseI64(text).value, Text(t))
    case StrTerm(_, s) => StrNode(s, Text(t))
    case ListTerm(items) => ListNode(NodesOf(items), Text(t))
    case DictTerm(entries) => DictNode(EntriesOf([], entries), Text(t))
  }

  /** Every integer text is a number. */
  ghost predicate Parsed(t: Term)
    decreases t
  {
    match t
    case IntTerm(text) => ParseI64(text).Some?
    case StrTerm(_, _) => true
    case ListTerm(items) => forall i :: 0 <= i < |items| ==> Parsed(items[i])
    case DictTerm(entries) => forall i :: 0 <= i < |entries| ==> Parsed(entries[i].value)
  }

  ghost function NodesOf(ts: seq<Term>): (ns: seq<Node>)
    requires forall i :: 0 <= i < |ts| ==> Parsed(ts[i])
    ensures |ns| == |ts| && forall i :: 0 <= i < |ts| ==> ns[i] == NodeOf(ts[i])
    decreases ts
  {
    if ts == [] then [] else [NodeOf(ts[0])] + NodesOf(ts[1..])
  }

  /** Entries inserted one after the other into the map read so far. */
  ghost function EntriesOf(acc: seq<Pair<Node>>, es: seq<TermEntry>): seq<Pair<Node>>
    requires forall i :: 0 <= i < |es| ==> Parsed(es[i].value)
    decreases es
  {
    if es == [] then acc
    else EntriesOf(Insert(acc, Pair(es[0].key, NodeOf(es[0].value))), es[1..])
  }

  lemma {:induction false} AcceptedParsed(t: Term, o: Options, d: nat)
    requires Accepted(t, o, d)
    ensures Parsed(t)
    decreases t
  {
    match t
    case IntTerm(_) =>
    case StrTerm(_, _) =>
    case ListTerm(items) =>
      forall i | 0 <= i < |items|
        ensures Parsed(items[i])
      {
        AcceptedParsed(items[i], o, d + 1);
      }
    case DictTerm(entries) =>
      forall i | 0 <= i < |entries|
        ensures Parsed(entries[i].value)
      {
        assert EntryAccepted(entries[i], o, d);
        AcceptedParsed(entries[i].value, o, d + 1);
      }
  }

  // ----- key discipline: the checks made entry by entry, and what they amount to -----

  /** The checks of the dictionary loop: each key is new and, when order is checked, not below the
      last key of the map so far. */
  ghost predicate KeyFits(acc: seq<Pair<Node>>, key: Bytes, sorted: bool) {
    !HasKey(acc, key) && !(sorted && acc != [] && Less(key, acc[|acc| - 1].key))
  }

  ghost predicate KeysFit(acc: seq<Pair<Node>>, es: seq<TermEntry>, sorted: bool)
    requires forall i :: 0 <= i < |es| ==> Parsed(es[i].value)
    decreases |es|
  {
    es == [] ||
    (KeyFits(acc, es[0].key, sorted) && KeysFit(Insert(acc, Pair(es[0].key, NodeOf(es[0].value))), es[1..], sorted))
  }

  /** The keys still to come are new and, when order is checked, above the keys read. */
  ghost predicate Continues(acc: seq<Pair<Node>>, es: seq<TermEntry>, sorted: bool) {
    && KeysDistinct(es)
    && (forall i, j :: 0 <= i < |acc| && 0 <= j < |es| ==> acc[i].key != es[j].key)
    && (sorted ==> KeysAscending(es) && forall i, j :: 0 <= i < |acc| && 0 <= j < |es| ==> Less(acc[i].key, es[j].key))
  }

  lemma {:induction false} ContinuesNext(acc: seq<Pair<Node>>, es: seq<TermEntry>, sorted: bool, n: Node)
    requires Continues(acc, es, sorted) && es != []
    ensures Continues(Insert(acc, Pair(es[0].key, n)), es[1..], sorted)
  {
    InsertMembers(acc, Pair(es[0].key, n));
  }

  lemma {:induction false} LessAsymmetric(x: Bytes, y: Bytes)
    requires Less(x, y)
    ensures !Less(y, x)
  {
    if Less(y, x) {
      LessTransitive(x, y, x);
      LessIrreflexive(x);
    }
  }

  lemma {:induction false} InsertKeeps(acc: seq<Pair<Node>>, e: Pair<Node>)
    ensures forall i :: 0 <= i < |acc| ==> acc[i] in Insert(acc, e)
    ensures e in Insert(acc, e)
  {
    var all := acc + [e];
    InsertMultiset(acc, e);
    assert multiset(all) == multiset(acc) + multiset{e};
    MemberOf(all, Insert(acc, e));
    assert all[|acc|] == e && forall i :: 0 <= i < |acc| ==> acc[i] == all[i];
  }

  lemma {:induction false} AboveLast(acc: seq<Pair<Node>>, key: Bytes)
    requires Ascending(acc) && !HasKey(acc, key) && !(acc != [] && Less(key, acc[|acc| - 1].key))
    ensures forall i :: 0 <= i < |acc| ==> Less(acc[i].key, key)
  {
    forall i | 0 <= i < |acc|
      ensures Less(acc[i].key, key)
    {
      LessTotal(acc[|acc| - 1].key, key);
      if i < |acc| - 1 {
        LessTransitive(acc[i].key, acc[|acc| - 1].key, key);
      }
    }
  }

  lemma {:induction false} ContinuesFrom(acc: seq<Pair<Node>>, es: seq<TermEntry>, sorted: bool, x: Pair<Node>)
    requires Continues(acc, es, sorted) && x in acc
    ensures forall j :: 0 <= j < |es| ==> x.key != es[j].key && (sorted ==> Less(x.key, es[j].key))
  {
    var i :| 0 <= i < |acc| && acc[i] == x;
  }

  lemma {:induction false} ContinuesBack(acc: seq<Pair<Node>>, e: TermEntry, n: Node, es: seq<TermEntry>, sorted: bool)
    requires Ascending(acc) && !HasKey(acc, e.key)
    requires !(sorted && acc != [] && Less(e.key, acc[|acc| - 1].key))
    requires Continues(Insert(acc, Pair(e.key, n)), es, sorted)
    ensures Continues(acc, [e] + es, sorted)
  {
    var x := Pair(e.key, n);
    InsertKeeps(acc, x);
    ContinuesFrom(Insert(acc, x), es, sorted, x);
    forall i | 0 <= i < |acc|
      ensures forall j :: 0 <= j < |es| ==> acc[i].key != es[j].key && (sorted ==> Less(acc[i].key, es[j].key))
    {
      ContinuesFrom(Insert(acc, x), es, sorted, acc[i]);
    }
    if sorted {
      AboveLast(acc, e.key);
    }
  }

  lemma {:induction false} FitsNow(acc: seq<Pair<Node>>, es: seq<TermEntry>, sorted: bool)
    requires Continues(acc, es, sorted) && es != []
    ensures KeyFits(acc, es[0].key, sorted)
  {
    if sorted && acc != [] {
      LessAsymmetric(acc[|acc| - 1].key, es[0].key);
    }
  }

  /** Checked entry by entry, the keys are distinct, and ascending when order is checked. */
  lemma {:induction false} KeysFitIff(acc: seq<Pair<Node>>, es: seq<TermEntry>, sorted: bool)
    requires Ascending(acc) && forall i :: 0 <= i < |es| ==> Parsed(es[i].value)
    ensures KeysFit(acc, es, sorted) <==> Continues(acc, es, sorted)
    decreases |es|
  {
    if es != [] {
      var x := Pair(es[0].key, NodeOf(es[0].value));
      if Continues(acc, es, sorted) {
        FitsNow(acc, es, sorted);
        ContinuesNext(acc, es, sorted, x.value);
        InsertAscending(acc, x);
        KeysFitIff(Insert(acc, x), es[1..], sorted);
      }
      if KeysFit(acc, es, sorted) {
        InsertAscending(acc, x);
        KeysFitIff(Insert(acc, x), es[1..], sorted);
        ContinuesBack(acc, es[0], x.value, es[1..], sorted);
        assert es == [es[0]] + es[1..];
      }
    }
  }

  // ----- every accepted term decodes -----

  lemma {:induction false} NoDelimiter(text: Bytes, delim: Byte)
    requires ParseI64(text).Some? && !IsDigit(delim) && delim != MINUS && delim != PLUS
    ensures delim !in text
  {
    var digits := if text[0] == MINUS || text[0] == PLUS then text[1..] else text;
    assert forall i :: 0 <= i < |digits| ==> digits[i] != delim;
    assert text == digits || text == [text[0]] + digits;
  }

  lemma {:induction false} FindOccurrence(text: Bytes, delim: Byte, b: Bytes, pos: nat)
    requires delim !in text && OccursAt(b, pos, text + [delim])
    ensures FindByte(b, pos, delim) == pos + |text| < |b| && b[pos..pos + |text|] == text
  {
    OccursSplit(b, pos, text, [delim]);
    OccursByte(b, pos + |text|, delim);
    assert forall i :: pos <= i < pos + |text| ==> b[i] == text[i - pos];
  }

  lemma {:induction false} NumberDecodes(text: Bytes, delim: Byte, b: Bytes, pos: nat)
    requires Number(text) && !IsDigit(delim) && delim != MINUS && delim != PLUS
    requires OccursAt(b, pos, text + [delim])
    ensures DecodeInt(b, pos, delim) == Ok(ParseI64(text).value, pos + |text| + 1)
  {
    NoDelimiter(text, delim);
    FindOccurrence(text, delim, b, pos);
  }

  lemma {:induction false} LengthDecodes(len: Bytes, s: Bytes, b: Bytes, pos: nat)
    requires Length(len, s) && OccursAt(b, pos, len + [BYTE_LEN_END] + s)
    ensures DecodeStr(b, pos) == Ok(s, pos + |len| + 1 + |s|)
  {
    OccursSplit(b, pos, len + [BYTE_LEN_END], s);
    NumberDecodes(len, BYTE_LEN_END, b, pos);
  }

  lemma {:induction false} IntStep(b: Bytes, pos: nat, o: Options, d: nat, n: int, next: nat)
    requires d < o.maxRecursion && pos < |b| && b[pos] == INT_START
    requires DecodeInt(b, pos + 1, BEN_END) == Ok(n, next)
    ensures Decode(b, pos, o, d) == Ok(IntNode(n, b[pos..next]), next)
  {
  }

  lemma {:induction false} ListStep(b: Bytes, pos: nat, o: Options, d: nat, items: seq<Node>, next: nat)
    requires d < o.maxRecursion && pos < |b| && b[pos] == LIST_START
    requires DecodeItems(b, pos + 1, o, d) == Ok(items, next)
    ensures Decode(b, pos, o, d) == Ok(ListNode(items, b[pos..next]), next)
  {
  }

  lemma {:induction false} DictStep(b: Bytes, pos: nat, o: Options, d: nat, entries: seq<Pair<Node>>, next: nat)
    requires d < o.maxRecursion && pos < |b| && b[pos] == DICT_START
    requires DecodeEntries(b, pos + 1, o, d, []) == Ok(entries, next)
    ensures Decode(b, pos, o, d) == Ok(DictNode(entries, b[pos..next]), next)
  {
  }

  lemma {:induction false} IntTermDecodes(text: Bytes, b: Bytes, pos: nat, o: Options, d: nat)
    requires d < o.maxRecursion && Number(text) && OccursAt(b, pos, Text(IntTerm(text)))
    ensures Decode(b, pos, o, d) == Ok(NodeOf(IntTerm(text)), pos + |Text(IntTerm(text))|)
  {
    var whole := [INT_START] + text + [BEN_END];
    assert Text(IntTerm(text)) == whole;
    IntTextDecodes(text, b, pos, pos + |whole|);
    IntStep(b, pos, o, d, ParseI64(text).value, pos + |whole|);
    assert b[pos..pos + |whole|] == whole;
  }

  lemma {:induction false} IntTextDecodes(text: Bytes, b: Bytes, pos: nat, next: nat)
    requires Number(text) && OccursAt(b, pos, [INT_START] + text + [BEN_END]) && next == pos + |text| + 2
    ensures b[pos] == INT_START && DecodeInt(b, pos + 1, BEN_END) == Ok(ParseI64(text).value, next)
  {
    OccursBracketed(b, pos, INT_START, text);
    NumberDecodes(text, BEN_END, b, pos + 1);
  }

  lemma {:induction false} StrTermDecodes(len: Bytes, s: Bytes, b: Bytes, pos: nat, o: Options, d: nat)
    requires d < o.maxRecursion && Length(len, s) && IsDigit(len[0]) && OccursAt(b, pos, Text(StrTerm(len, s)))
    ensures Decode(b, pos, o, d) == Ok(NodeOf(StrTerm(len, s)), pos + |Text(StrTerm(len, s))|)
  {
    var x := Text(StrTerm(len, s));
    assert x[0] == len[0] == b[pos..pos + |x|][0] == b[pos];
    LengthDecodes(len, s, b, pos);
  }

  lemma {:induction false} OccursBracketed(b: Bytes, pos: nat, open: Byte, body: Bytes)
    requires OccursAt(b, pos, [open] + body + [BEN_END])
    ensures b[pos] == open && OccursAt(b, pos + 1, body + [BEN_END])
    ensures |[open] + body + [BEN_END]| == |body| + 2
  {
    assert [open] + body + [BEN_END] == [open] + (body + [BEN_END]);
    OccursSplit(b, pos, [open], body + [BEN_END]);
    OccursByte(b, pos, open);
  }

  /** Completeness: wherever an accepted term occurs, the decoder reads exactly it. */
  lemma {:induction false} TermDecodes(t: Term, b: Bytes, pos: nat, o: Options, d: nat)
    requires Accepted(t, o, d) && Parsed(t) && OccursAt(b, pos, Text(t))
    ensures Decode(b, pos, o, d) == Ok(NodeOf(t), pos + |Text(t)|)
    decreases t, 0
  {
    match t
    case IntTerm(text) => IntTermDecodes(text, b, pos, o, d);
    case StrTerm(len, s) => StrTermDecodes(len, s, b, pos, o, d);
    case ListTerm(items) => ListTermDecodes(t, b, pos, o, d, pos + |Text(t)|);
    case DictTerm(entries) => DictTermDecodes(t, b, pos, o, d, pos + |Text(t)|);
  }

  lemma {:induction false} ListTermDecodes(t: Term, b: Bytes, pos: nat, o: Options, d: nat, next: nat)
    requires Accepted(t, o, d) && Parsed(t) && t.ListTerm? && OccursAt(b, pos, Text(t)) && next == pos + |Text(t)|
    ensures Decode(b, pos, o, d) == Ok(NodeOf(t), next)
    decreases t.items, 2
  {
    OccursBracketed(b, pos, LIST_START, TextItems(t.items));
    ItemsDecode(t.items, b, pos + 1, o, d, next);
    ListNodeAt(t, b, pos, o, d, next);
  }

  lemma {:induction false} ListNodeAt(t: Term, b: Bytes, pos: nat, o: Options, d: nat, next: nat)
    requires t.ListTerm? && Parsed(t) && d < o.maxRecursion && pos < |b| && b[pos] == LIST_START
    requires OccursAt(b, pos, Text(t)) && next == pos + |Text(t)|
    requires DecodeItems(b, pos + 1, o, d) == Ok(NodesOf(t.items), next)
    ensures Decode(b, pos, o, d) == Ok(NodeOf(t), next)
  {
    ListStep(b, pos, o, d, NodesOf(t.items), next);
  }

  lemma {:induction false} DictTermDecodes(t: Term, b: Bytes, pos: nat, o: Options, d: nat, next: nat)
    requires Accepted(t, o, d) && Parsed(t) && t.DictTerm? && OccursAt(b, pos, Text(t)) && next == pos + |Text(t)|
    ensures Decode(b, pos, o, d) == Ok(NodeOf(t), next)
    decreases t.entries, 2
  {
    OccursBracketed(b, pos, DICT_START, TextEntries(t.entries));
    AcceptedKeysFit(t.entries, o.checkKeySort);
    EntriesDecode(t.entries, b, pos + 1, o, d, [], next);
    DictNodeAt(t, b, pos, o, d, next);
  }

  lemma {:induction false} AcceptedKeysFit(es: seq<TermEntry>, sorted: bool)
    requires KeysDistinct(es) && (sorted ==> KeysAscending(es)) && forall i :: 0 <= i < |es| ==> Parsed(es[i].value)
    ensures KeysFit([], es, sorted)
  {
    KeysFitIff([], es, sorted);
  }

  lemma {:induction false} DictNodeAt(t: Term, b: Bytes, pos: nat, o: Options, d: nat, next: nat)
    requires t.DictTerm? && Parsed(t) && d < o.maxRecursion && pos < |b| && b[pos] == DICT_START
    requires OccursAt(b, pos, Text(t)) && next == pos + |Text(t)|
    requires DecodeEntries(b, pos + 1, o, d, []) == Ok(EntriesOf([], t.entries), next)
    ensures Decode(b, pos, o, d) == Ok(NodeOf(t), next)
  {
    DictStep(b, pos, o, d, EntriesOf([], t.entries), next);
  }

  /** No term starts with the end marker. */
  lemma {:induction false} FirstByte(t: Term, o: Options, d: nat)
    requires Accepted(t, o, d)
    ensures Text(t) != [] && Text(t)[0] != BEN_END
  {
  }

  /** One iteration of the list loop. */
  lemma {:induction false} ItemStep(b: Bytes, pos: nat, o: Options, d: nat, first: Result<Node>,
                                    rest: Result<seq<Node>>)
    requires pos < |b| && b[pos] != BEN_END
    requires first == Decode(b, pos, o, d + 1) && first.Ok?
    requires rest == DecodeItems(b, first.next, o, d) && rest.Ok?
    ensures DecodeItems(b, pos, o, d) == Ok([first.value] + rest.value, rest.next)
  {
  }

  lemma {:induction false} OccursItem(ts: seq<Term>, b: Bytes, pos: nat, p: nat)
    requires ts != [] && Text(ts[0]) != [] && OccursAt(b, pos, TextItems(ts) + [BEN_END])
    requires p == pos + |Text(ts[0])|
    ensures OccursAt(b, pos, Text(ts[0])) && b[pos] == Text(ts[0])[0]
    ensures OccursAt(b, p, TextItems(ts[1..]) + [BEN_END])
    ensures p + |TextItems(ts[1..])| == pos + |TextItems(ts)|
  {
    var x, y := Text(ts[0]), TextItems(ts[1..]) + [BEN_END];
    assert TextItems(ts) + [BEN_END] == x + y;
    OccursSplit(b, pos, x, y);
    assert b[pos] == b[pos..pos + |x|][0];
  }

  lemma {:induction false} ItemsEnd(b: Bytes, pos: nat, o: Options, d: nat)
    requires OccursAt(b, pos, TextItems([]) + [BEN_END])
    ensures DecodeItems(b, pos, o, d) == Ok([], pos + 1)
  {
    assert TextItems([]) + [BEN_END] == [BEN_END];
    OccursByte(b, pos, BEN_END);
  }

  lemma {:induction false} FirstItemDecodes(ts: seq<Term>, b: Bytes, pos: nat, o: Options, d: nat, p: nat)
    requires ts != [] && Accepted(ts[0], o, d + 1) && Parsed(ts[0])
    requires OccursAt(b, pos, TextItems(ts) + [BEN_END]) && p == pos + |Text(ts[0])|
    ensures b[pos] != BEN_END && Decode(b, pos, o, d + 1) == Ok(NodeOf(ts[0]), p)
    ensures OccursAt(b, p, TextItems(ts[1..]) + [BEN_END])
    ensures p + |TextItems(ts[1..])| == pos + |TextItems(ts)|
    decreases ts, 0
  {
    FirstByte(ts[0], o, d + 1);
    OccursItem(ts, b, pos, p);
    TermDecodes(ts[0], b, pos, o, d + 1);
  }

  lemma {:induction false} ItemsDecode(ts: seq<Term>, b: Bytes, pos: nat, o: Options, d: nat, next: nat)
    requires forall i :: 0 <= i < |ts| ==> Accepted(ts[i], o, d + 1) && Parsed(ts[i])
    requires OccursAt(b, pos, TextItems(ts) + [BEN_END]) && next == pos + |TextItems(ts)| + 1
    ensures DecodeItems(b, pos, o, d) == Ok(NodesOf(ts), next)
    decreases ts, 1
  {
    if ts == [] {
      ItemsEnd(b, pos, o, d);
    } else {
      var p := pos + |Text(ts[0])|;
      FirstItemDecodes(ts, b, pos, o, d, p);
      ItemsDecode(ts[1..], b, p, o, d, next);
      ItemStep(b, pos, o, d, Ok(NodeOf(ts[0]), p), Ok(NodesOf(ts[1..]), next));
    }
  }

  lemma {:induction false} NumberStart(s: Bytes)
    requires ParseI64(s).Some?
    ensures s != [] && s[0] != BEN_END
  {
  }

  /** One iteration of the dictionary loop. */
  lemma {:induction false} EntryStep(b: Bytes, pos: nat, o: Options, d: nat, acc: seq<Pair<Node>>,
                                     key: Bytes, p: nat, node: Node, q: nat)
    requires pos < |b| && b[pos] != BEN_END
    requires DecodeStr(b, pos) == Ok(key, p) && Decode(b, p, o, d + 1) == Ok(node, q)
    requires KeyFits(acc, key, o.checkKeySort)
    ensures DecodeEntries(b, pos, o, d, acc) == DecodeEntries(b, q, o, d, Insert(acc, Pair(key, node)))
  {
  }

  lemma {:induction false} OccursEntry(es: seq<TermEntry>, b: Bytes, pos: nat, p: nat, q: nat)
    requires es != [] && es[0].len != [] && OccursAt(b, pos, TextEntries(es) + [BEN_END])
    requires p == pos + |KeyText(es[0])| && q == p + |Text(es[0].value)|
    ensures OccursAt(b, pos, KeyText(es[0])) && b[pos] == es[0].len[0]
    ensures OccursAt(b, p, Text(es[0].value))
    ensures OccursAt(b, q, TextEntries(es[1..]) + [BEN_END])
  {
    var x, y, z := KeyText(es[0]), Text(es[0].value), TextEntries(es[1..]) + [BEN_END];
    assert TextEntries(es) + [BEN_END] == x + (y + z);
    OccursSplit(b, pos, x, y + z);
    OccursSplit(b, p, y, z);
    assert b[pos] == b[pos..pos + |x|][0];
  }

  lemma {:induction false} EntriesEnd(b: Bytes, pos: nat, o: Options, d: nat, acc: seq<Pair<Node>>)
    requires OccursAt(b, pos, TextEntries([]) + [BEN_END])
    ensures DecodeEntries(b, pos, o, d, acc) == Ok(acc, pos + 1)
  {
    assert TextEntries([]) + [BEN_END] == [BEN_END];
    OccursByte(b, pos, BEN_END);
  }

  lemma {:induction false} EntriesLength(es: seq<TermEntry>)
    requires es != []
    ensures |TextEntries(es)| == |KeyText(es[0])| + |Text(es[0].value)| + |TextEntries(es[1..])|
  {
  }

  lemma {:induction false} FirstEntryDecodes(es: seq<TermEntry>, b: Bytes, pos: nat, o: Options, d: nat, p: nat, q: nat)
    requires es != [] && EntryAccepted(es[0], o, d) && Parsed(es[0].value)
    requires OccursAt(b, pos, TextEntries(es) + [BEN_END])
    requires p == pos + |KeyText(es[0])| && q == p + |Text(es[0].value)|
    ensures b[pos] != BEN_END && DecodeStr(b, pos) == Ok(es[0].key, p)
    ensures Decode(b, p, o, d + 1) == Ok(NodeOf(es[0].value), q)
    ensures OccursAt(b, q, TextEntries(es[1..]) + [BEN_END])
    decreases es, 0
  {
    FirstKeyDecodes(es, b, pos, p, q);
    TermDecodes(es[0].value, b, p, o, d + 1);
  }

  lemma {:induction false} FirstKeyDecodes(es: seq<TermEntry>, b: Bytes, pos: nat, p: nat, q: nat)
    requires es != [] && Length(es[0].len, es[0].key)
    requires OccursAt(b, pos, TextEntries(es) + [BEN_END])
    requires p == pos + |KeyText(es[0])| && q == p + |Text(es[0].value)|
    ensures b[pos] != BEN_END && DecodeStr(b, pos) == Ok(es[0].key, p)
    ensures OccursAt(b, p, Text(es[0].value)) && OccursAt(b, q, TextEntries(es[1..]) + [BEN_END])
  {
    NumberStart(es[0].len);
    OccursEntry(es, b, pos, p, q);
    LengthDecodes(es[0].len, es[0].key, b, pos);
  }

  lemma {:induction false} EntriesDecode(es: seq<TermEntry>, b: Bytes, pos: nat, o: Options, d: nat,
                                         acc: seq<Pair<Node>>, next: nat)
    requires forall i :: 0 <= i < |es| ==> EntryAccepted(es[i], o, d) && Parsed(es[i].value)
    requires KeysFit(acc, es, o.checkKeySort)
    requires OccursAt(b, pos, TextEntries(es) + [BEN_END]) && next == pos + |TextEntries(es)| + 1
    ensures DecodeEntries(b, pos, o, d, acc) == Ok(EntriesOf(acc, es), next)
    decreases es, 1
  {
    if es == [] {
      EntriesEnd(b, pos, o, d, acc);
    } else {
      var p := pos + |KeyText(es[0])|;
      var q := p + |Text(es[0].value)|;
      FirstEntryDecodes(es, b, pos, o, d, p, q);
      EntryStep(b, pos, o, d, acc, es[0].key, p, NodeOf(es[0].value), q);
      EntriesLength(es);
      EntriesDecode(es[1..], b, q, o, d, Insert(acc, Pair(es[0].key, NodeOf(es[0].value))), next);
    }
  }

  // ----- every successful decode reads an accepted term -----

  lemma {:induction false} DeriveNumber(b: Bytes, pos: nat, delim: Byte) returns (text: Bytes)
    requires pos <= |b| && DecodeInt(b, pos, delim).Ok?
    ensures var r := DecodeInt(b, pos, delim);
            Number(text) && ParseI64(text) == Some(r.value) && b[pos..r.next] == text + [delim]
  {
    text := b[pos..FindByte(b, pos, delim)];
  }

  lemma {:induction false} DeriveLength(b: Bytes, pos: nat) returns (len: Bytes)
    requires pos <= |b| && DecodeStr(b, pos).Ok?
    ensures var r := DecodeStr(b, pos);
            Length(len, r.value) && b[pos..r.next] == len + [BYTE_LEN_END] + r.value && len[0] == b[pos]
  {
    var start := DecodeInt(b, pos, BYTE_LEN_END).next;
    len := DeriveNumber(b, pos, BYTE_LEN_END);
    PrefixedText(b, pos, start, DecodeStr(b, pos).next, len);
  }

  lemma {:induction false} PrefixedText(b: Bytes, pos: nat, start: nat, next: nat, len: Bytes)
    requires pos <= start <= next <= |b| && len != [] && b[pos..start] == len + [BYTE_LEN_END]
    ensures b[pos..next] == len + [BYTE_LEN_END] + b[start..next] && len[0] == b[pos]
  {
    assert b[pos..next] == b[pos..start] + b[start..next];
    assert b[pos] == b[pos..start][0];
  }

  /** Soundness: what the decoder reads is an accepted term, and its node is the term's. */
  lemma {:induction false} Derive(b: Bytes, pos: nat, o: Options, d: nat) returns (t: Term)
    requires Decode(b, pos, o, d).Ok?
    ensures Accepted(t, o, d) && Parsed(t) && NodeOf(t) == Decode(b, pos, o, d).value
    decreases Remaining(b, pos), 1
  {
    if b[pos] == INT_START {
      t := DeriveInt(b, pos, o, d);
    } else if b[pos] == LIST_START {
      var items := DeriveItems(b, pos + 1, o, d);
      t := ListTerm(items);
      Bracketed(b, pos, Decode(b, pos, o, d).next, TextItems(items));
    } else if b[pos] == DICT_START {
      var entries := DeriveEntries(b, pos + 1, o, d, []);
      t := DictTerm(entries);
      KeysFitIff([], entries, o.checkKeySort);
      Bracketed(b, pos, Decode(b, pos, o, d).next, TextEntries(entries));
    } else {
      var len := DeriveLength(b, pos);
      t := StrTerm(len, DecodeStr(b, pos).value);
    }
  }

  lemma {:induction false} Bracketed(b: Bytes, pos: nat, next: nat, body: Bytes)
    requires pos + 1 <= next <= |b| && body + [BEN_END] == b[pos + 1..next]
    ensures b[pos..next] == [b[pos]] + body + [BEN_END]
  {
    assert b[pos..next] == [b[pos]] + b[pos + 1..next];
  }

  lemma {:induction false} DeriveInt(b: Bytes, pos: nat, o: Options, d: nat) returns (t: Term)
    requires Decode(b, pos, o, d).Ok? && b[pos] == INT_START
    ensures Accepted(t, o, d) && Parsed(t) && NodeOf(t) == Decode(b, pos, o, d).value
  {
    var text := DeriveNumber(b, pos + 1, BEN_END);
    t := IntTerm(text);
    assert b[pos..Decode(b, pos, o, d).next] == [INT_START] + b[pos + 1..Decode(b, pos, o, d).next];
  }

  lemma {:induction false} DeriveItems(b: Bytes, pos: nat, o: Options, d: nat) returns (ts: seq<Term>)
    requires DecodeItems(b, pos, o, d).Ok?
    ensures forall i :: 0 <= i < |ts| ==> Accepted(ts[i], o, d + 1) && Parsed(ts[i])
    ensures NodesOf(ts) == DecodeItems(b, pos, o, d).value
    ensures TextItems(ts) + [BEN_END] == b[pos..DecodeItems(b, pos, o, d).next]
    decreases Remaining(b, pos), 2
  {
    if b[pos] == BEN_END {
      ts := [];
    } else {
      var p := Decode(b, pos, o, d + 1).next;
      var next := DecodeItems(b, p, o, d).next;
      var t := Derive(b, pos, o, d + 1);
      var rest := DeriveItems(b, p, o, d);
      ts := [t] + rest;
      assert ts[1..] == rest;
      ItemText(ts, b, pos, p, next);
    }
  }

  lemma {:induction false} DeriveEntries(b: Bytes, pos: nat, o: Options, d: nat, acc: seq<Pair<Node>>)
    returns (es: seq<TermEntry>)
    requires DecodeEntries(b, pos, o, d, acc).Ok?
    ensures forall i :: 0 <= i < |es| ==> EntryAccepted(es[i], o, d) && Parsed(es[i].value)
    ensures KeysFit(acc, es, o.checkKeySort)
    ensures EntriesOf(acc, es) == DecodeEntries(b, pos, o, d, acc).value
    ensures TextEntries(es) + [BEN_END] == b[pos..DecodeEntries(b, pos, o, d, acc).next]
    decreases Remaining(b, pos), 2
  {
    if b[pos] == BEN_END {
      es := [];
    } else {
      var e, q := DeriveEntry(b, pos, o, d, acc);
      var rest := DeriveEntries(b, q, o, d, Insert(acc, Pair(e.key, NodeOf(e.value))));
      es := [e] + rest;
      assert es[1..] == rest;
      EntryText(es, b, pos, q, DecodeEntries(b, pos, o, d, acc).next);
    }
  }

  lemma {:induction false} ItemText(ts: seq<Term>, b: Bytes, pos: nat, p: nat, next: nat)
    requires ts != [] && pos <= p <= next <= |b|
    requires b[pos..p] == Text(ts[0]) && TextItems(ts[1..]) + [BEN_END] == b[p..next]
    ensures TextItems(ts) + [BEN_END] == b[pos..next]
  {
    assert b[pos..next] == b[pos..p] + b[p..next];
  }

  lemma {:induction false} EntryText(es: seq<TermEntry>, b: Bytes, pos: nat, q: nat, next: nat)
    requires es != [] && pos <= q <= next <= |b|
    requires b[pos..q] == KeyText(es[0]) + Text(es[0].value)
    requires TextEntries(es[1..]) + [BEN_END] == b[q..next]
    ensures TextEntries(es) + [BEN_END] == b[pos..next]
  {
    assert b[pos..next] == b[pos..q] + b[q..next];
  }

  /** What one iteration of the dictionary loop has read, and what it checked. */
  lemma {:induction false} DeriveEntry(b: Bytes, pos: nat, o: Options, d: nat, acc: seq<Pair<Node>>)
    returns (e: TermEntry, q: nat)
    requires pos < |b| && b[pos] != BEN_END && DecodeEntries(b, pos, o, d, acc).Ok?
    ensures EntryAccepted(e, o, d) && Parsed(e.value)
    ensures pos < q <= |b| && b[pos..q] == KeyText(e) + Text(e.value)
    ensures KeyFits(acc, e.key, o.checkKeySort)
    ensures DecodeEntries(b, pos, o, d, acc) == DecodeEntries(b, q, o, d, Insert(acc, Pair(e.key, NodeOf(e.value))))
    decreases Remaining(b, pos), 1
  {
    var key, p, node, next := EntryRead(b, pos, o, d, acc);
    var len := DeriveLength(b, pos);
    var t := Derive(b, p, o, d + 1);
    e, q := TermEntry(len, key, t), next;
    JoinSlices(b, pos, p, q);
  }

  lemma {:induction false} JoinSlices(b: Bytes, pos: nat, p: nat, q: nat)
    requires pos <= p <= q <= |b|
    ensures b[pos..q] == b[pos..p] + b[p..q]
  {
  }

  /** A successful iteration of the dictionary loop, taken apart. */
  lemma {:induction false} EntryRead(b: Bytes, pos: nat, o: Options, d: nat, acc: seq<Pair<Node>>)
    returns (key: Bytes, p: nat, node: Node, q: nat)
    requires pos < |b| && b[pos] != BEN_END && DecodeEntries(b, pos, o, d, acc).Ok?
    ensures DecodeStr(b, pos) == Ok(key, p) && Decode(b, p, o, d + 1) == Ok(node, q) && pos < p < q <= |b|
    ensures KeyFits(acc, key, o.checkKeySort)
    ensures DecodeEntries(b, pos, o, d, acc) == DecodeEntries(b, q, o, d, Insert(acc, Pair(key, node)))
  {
    key, p := DecodeStr(b, pos).value, DecodeStr(b, pos).next;
    node, q := Decode(b, p, o, d + 1).value, Decode(b, p, o, d + 1).next;
  }
}

/** Splitting, joining and trimming, as Rust's `split`, `join`, `trim` and `trim_start_matches` do. */
module Text {

  /** The Unicode property White_Space. */
  predicate IsWhitespace(c: char) {
    || '\U{9}' <= c <= '\U{d}' || c == ' ' || c == '\U{85}' || c == '\U{a0}' || c == '\U{1680}'
    || '\U{2000}' <= c <= '\U{200a}' || c == '\U{2028}' || c == '\U{2029}' || c == '\U{202f}'
    || c == '\U{205f}' || c == '\U{3000}'
  }

  /** The 25 characters with that property, by number. */
  lemma WhitespaceCodes(c: char)
    ensures IsWhitespace(c) <==>
            var n := c as int;
            || 9 <= n <= 13 || n in {32, 133, 160, 5760} || 8192 <= n <= 8202 || n in {8232, 8233, 8239, 8287, 12288}
  {
  }

  function Occurrences(s: string, c: char): nat {
    if s == [] then 0 else (if s[0] == c then 1 else 0) + Occurrences(s[1..], c)
  }

  /** The pieces between separators; always at least one. */
  function Split(s: string, sep: char): (ps: seq<string>)
    ensures ps != []
    ensures forall i :: 0 <= i < |ps| ==> sep !in ps[i]
  {
    if s == [] then [[]]
    else
      var rest := Split(s[1..], sep);
      if s[0] == sep then [[]] + rest else [[s[0]] + rest[0]] + rest[1..]
  }

  function Join(ps: seq<string>, sep: char): string {
    if ps == [] then [] else if |ps| == 1 then ps[0] else ps[0] + [sep] + Join(ps[1..], sep)
  }

  lemma {:induction false} SplitPiece(p: string, sep: char)
    requires sep !in p
    ensures Split(p, sep) == [p]
  {
    if p != [] {
      SplitPiece(p[1..], sep);
      assert [p[0]] + p[1..] == p;
    }
  }

  lemma {:induction false} SplitFirst(p: string, sep: char, rest: string)
    requires sep !in p
    ensures Split(p + [sep] + rest, sep) == [p] + Split(rest, sep)
    decreases |p|
  {
    var s := p + [sep] + rest;
    if p == [] {
      assert s == [sep] + rest && s[1..] == rest;
    } else {
      SplitFirst(p[1..], sep, rest);
      assert s[1..] == p[1..] + [sep] + rest;
      assert [p[0]] + p[1..] == p;
    }
  }

  /** Pieces without the separator come back from their join. */
  lemma {:induction false} SplitJoin(ps: seq<string>, sep: char)
    requires ps != [] && forall i :: 0 <= i < |ps| ==> sep !in ps[i]
    ensures Split(Join(ps, sep), sep) == ps
  {
    if |ps| == 1 {
      SplitPiece(ps[0], sep);
    } else {
      SplitJoin(ps[1..], sep);
      SplitFirst(ps[0], sep, Join(ps[1..], sep));
      assert ps == [ps[0]] + ps[1..];
    }
  }

  /** Every text is the join of its pieces, one more than it has separators. */
  lemma {:induction false} JoinSplit(s: string, sep: char)
    ensures Join(Split(s, sep), sep) == s && |Split(s, sep)| == Occurrences(s, sep) + 1
  {
    if s != [] {
      var rest := Split(s[1..], sep);
      JoinSplit(s[1..], sep);
      if s[0] == sep {
        assert ([[]] + rest)[1..] == rest;
      } else {
        assert ([[s[0]] + rest[0]] + rest[1..])[1..] == rest[1..];
      }
      assert s == [s[0]] + s[1..];
    }
  }

  lemma {:induction false} JoinAppend(ps: seq<string>, qs: seq<string>, sep: char)
    requires ps != [] && qs != []
    ensures Join(ps + qs, sep) == Join(ps, sep) + [sep] + Join(qs, sep)
  {
    if |ps| == 1 {
      assert (ps + qs)[1..] == qs;
    } else {
      assert (ps + qs)[1..] == ps[1..] + qs;
      JoinAppend(ps[1..], qs, sep);
    }
  }

  // ----- trimming -----

  function TrimStart(s: string): string { if s != [] && IsWhitespace(s[0]) then TrimStart(s[1..]) else s }

  function TrimEnd(s: string): string {
    if s != [] && IsWhitespace(s[|s| - 1]) then TrimEnd(s[..|s| - 1]) else s
  }

  function TrimMarks(s: string): string { if s != [] && s[0] == '?' then TrimMarks(s[1..]) else s }

  /** What is parsed of a raw query. */
  function Clean(s: string): string { TrimMarks(TrimEnd(TrimStart(s))) }

  predicate Blank(s: string) { forall i :: 0 <= i < |s| ==> IsWhitespace(s[i]) }

  predicate Marks(s: string) { forall i :: 0 <= i < |s| ==> s[i] == '?' }

  lemma {:induction false} TrimStartExact(s: string) returns (cut: string)
    ensures s == cut + TrimStart(s) && Blank(cut)
    ensures TrimStart(s) != [] ==> !IsWhitespace(TrimStart(s)[0])
  {
    cut := [];
    if s != [] && IsWhitespace(s[0]) {
      var rest := TrimStartExact(s[1..]);
      cut := [s[0]] + rest;
      assert s == [s[0]] + s[1..];
    }
  }

  lemma {:induction false} TrimMarksExact(s: string) returns (cut: string)
    ensures s == cut + TrimMarks(s) && Marks(cut)
    ensures TrimMarks(s) != [] ==> TrimMarks(s)[0] != '?'
  {
    cut := [];
    if s != [] && s[0] == '?' {
      var rest := TrimMarksExact(s[1..]);
      cut := [s[0]] + rest;
      assert s == [s[0]] + s[1..];
    }
  }

  lemma {:induction false} TrimEndExact(s: string) returns (cut: string)
    ensures s == TrimEnd(s) + cut && Blank(cut)
    ensures TrimEnd(s) != [] ==> !IsWhitespace(TrimEnd(s)[|TrimEnd(s)| - 1])
  {
    cut := [];
    if s != [] && IsWhitespace(s[|s| - 1]) {
      var rest := TrimEndExact(s[..|s| - 1]);
      cut := rest + [s[|s| - 1]];
      assert s == s[..|s| - 1] + [s[|s| - 1]];
    }
  }

  /** What is cut off a raw query: blanks in front, then question marks, and blanks at the end; nothing more
      of these kinds is left at that place. */
  ghost predicate Cuts(s: string, front: string, marks: string, kept: string, end: string) {
    && s == front + marks + kept + end && Blank(front) && Marks(marks) && Blank(end)
    && (kept != [] ==> kept[0] != '?')
    && (marks + kept != [] ==> !IsWhitespace((marks + kept)[0]) && !IsWhitespace((marks + kept)[|marks + kept| - 1]))
  }

  lemma {:induction false} CutsCompose(s: string, x: string, y: string, kept: string,
                                       front: string, marks: string, end: string)
    requires s == front + x && x == y + end && y == marks + kept && Blank(front) && Marks(marks) && Blank(end)
    requires (x != [] ==> !IsWhitespace(x[0])) && (y != [] ==> !IsWhitespace(y[|y| - 1]))
    requires kept != [] ==> kept[0] != '?'
    ensures Cuts(s, front, marks, kept, end)
  {
    assert y != [] ==> y[0] == x[0];
    assert s == front + marks + kept + end;
  }

  lemma {:induction false} CleanExact(s: string)
    ensures exists front, marks, end :: Cuts(s, front, marks, Clean(s), end)
  {
    var x := TrimStart(s);
    var y := TrimEnd(x);
    var front := TrimStartExact(s);
    var end := TrimEndExact(x);
    var marks := TrimMarksExact(y);
    CutsCompose(s, x, y, Clean(s), front, marks, end);
  }

  /** A mark that is neither blank nor `?`. */
  predicate Stops(c: char) { !IsWhitespace(c) && c != '?' }

  lemma {:induction false} TrimStartBefore(x: string, c: char, y: string)
    requires Stops(c)
    ensures TrimStart(x + [c] + y) == TrimStart(x) + [c] + y
    decreases |x|
  {
    if x != [] && IsWhitespace(x[0]) {
      assert (x + [c] + y)[1..] == x[1..] + [c] + y;
      TrimStartBefore(x[1..], c, y);
    }
  }

  lemma {:induction false} TrimMarksBefore(x: string, c: char, y: string)
    requires Stops(c)
    ensures TrimMarks(x + [c] + y) == TrimMarks(x) + [c] + y
    decreases |x|
  {
    if x != [] && x[0] == '?' {
      assert (x + [c] + y)[1..] == x[1..] + [c] + y;
      TrimMarksBefore(x[1..], c, y);
    }
  }

  lemma {:induction false} TrimEndAfter(x: string, c: char, y: string)
    requires Stops(c)
    ensures TrimEnd(x + [c] + y) == x + [c] + TrimEnd(y)
    decreases |y|
  {
    var s := x + [c] + y;
    if y == [] {
      assert s[|s| - 1] == c;
    } else if IsWhitespace(y[|y| - 1]) {
      assert s[..|s| - 1] == x + [c] + y[..|y| - 1];
      TrimEndAfter(x, c, y[..|y| - 1]);
    }
  }

  lemma {:induction false} TrimShortens(s: string)
    ensures |TrimStart(s)| <= |s| && (TrimStart(s) == s <==> s == [] || !IsWhitespace(s[0]))
    ensures |TrimMarks(s)| <= |s| && (TrimMarks(s) == s <==> s == [] || s[0] != '?')
    ensures |TrimEnd(s)| <= |s| && (TrimEnd(s) == s <==> s == [] || !IsWhitespace(s[|s| - 1]))
    ensures TrimStart(s) == s || |TrimStart(s)| < |s|
    ensures TrimMarks(s) == s || |TrimMarks(s)| < |s|
    ensures TrimEnd(s) == s || |TrimEnd(s)| < |s|
    decreases |s|
  {
    if s != [] {
      TrimShortens(s[1..]);
      TrimShortens(s[..|s| - 1]);
    }
  }

  /** A part of the text without a character has none of it after trimming. */
  lemma {:induction false} TrimKeepsOut(s: string, c: char)
    requires c !in s
    ensures c !in TrimStart(s) && c !in TrimMarks(s) && c !in TrimEnd(s)
    decreases |s|
  {
    if s != [] {
      TrimKeepsOut(s[1..], c);
      TrimKeepsOut(s[..|s| - 1], c);
    }
  }
}

/** The URL query component: parsing, printing, and reading parameters. */
module Query {
  import opened Wrappers
  import opened Text

  datatype Pair = Pair(name: string, value: string)

  /** `MultiMap`: for each name its pairs in insertion order. Iteration over the names has no fixed
      order, so printing takes the order as an argument. */
  type Query = map<string, seq<Pair>>

  datatype Result<+T> = Ok(value: T) | InvalidParam(raw: string)

  function Insert(q: Query, p: Pair): Query { q[p.name := (if p.name in q then q[p.name] else []) + [p]] }

  function FromPairs(ps: seq<Pair>): Query {
    if ps == [] then map[] else Insert(FromPairs(ps[..|ps| - 1]), ps[|ps| - 1])
  }

  function Values(ps: seq<Pair>): (vs: seq<string>)
    ensures |vs| == |ps| && forall i :: 0 <= i < |ps| ==> vs[i] == ps[i].value
  {
    seq(|ps|, i requires 0 <= i < |ps| => ps[i].value)
  }

  function GetParamVec(q: Query, name: string): Option<seq<string>> {
    if name in q then Some(Values(q[name])) else None
  }

  function PairText(p: Pair): string { p.name + ['='] + p.value }

  function PairTexts(ps: seq<Pair>): (r: seq<string>)
    ensures |r| == |ps|
  {
    if ps == [] then [] else [PairText(ps[0])] + PairTexts(ps[1..])
  }

  function PairsText(ps: seq<Pair>): string { Join(PairTexts(ps), '&') }

  function ParsePair(raw: string): Result<Pair> {
    var parts := Split(raw, '=');
    if |parts| != 2 then InvalidParam(raw) else Ok(Pair(parts[0], parts[1]))
  }

  /** Pairs parsed one after the other; the first bad one is the error. */
  function ParsePairs(raws: seq<string>): Result<seq<Pair>> {
    if raws == [] then Ok([])
    else
      match ParsePair(raws[0])
      case InvalidParam(raw) => InvalidParam(raw)
      case Ok(p) =>
        match ParsePairs(raws[1..])
        case InvalidParam(raw) => InvalidParam(raw)
        case Ok(ps) => Ok([p] + ps)
  }

  function Parse(raw: string): Result<Query> {
    match ParsePairs(Split(Clean(raw), '&'))
    case InvalidParam(r) => InvalidParam(r)
    case Ok(ps) => Ok(FromPairs(ps))
  }

  function GroupTexts(q: Query, order: seq<string>): (r: seq<string>)
    requires forall i :: 0 <= i < |order| ==> order[i] in q
    ensures |r| == |order|
  {
    if order == [] then [] else [PairsText(q[order[0]])] + GroupTexts(q, order[1..])
  }

  function Print(q: Query, order: seq<string>): string
    requires forall i :: 0 <= i < |order| ==> order[i] in q
  {
    Join(GroupTexts(q, order), '&')
  }

  // ----- the loops of the implementation -----

  method ParseQuery(raw: string) returns (r: Result<Query>)
    ensures r == Parse(raw)
  {
    var params: Query := map[];
    var raws := Split(Clean(raw), '&');
    ghost var done: seq<Pair> := [];
    var i := 0;
    BeforeNone(ParsePairs(raws));
    assert raws[0..] == raws;
    while i < |raws|
      invariant 0 <= i <= |raws|
      invariant params == FromPairs(done)
      invariant ParsePairs(raws) == Before(done, ParsePairs(raws[i..]))
    {
      var pair := ParsePair(raws[i]);
      ParsePairsNext(raws, i);
      if pair.InvalidParam? {
        return InvalidParam(pair.raw);
      }
      BeforeNext(done, pair.value, ParsePairs(raws[i + 1..]));
      FromPairsNext(done, pair.value);
      params := Insert(params, pair.value);
      done := done + [pair.value];
      i := i + 1;
    }
    assert raws[i..] == [] && done + [] == done;
    return Ok(params);
  }

  ghost function Before(done: seq<Pair>, r: Result<seq<Pair>>): Result<seq<Pair>> {
    match r
    case InvalidParam(raw) => InvalidParam(raw)
    case Ok(ps) => Ok(done + ps)
  }

  lemma ParsePairsNext(raws: seq<string>, i: nat)
    requires i < |raws|
    ensures var pair := ParsePair(raws[i]);
            ParsePairs(raws[i..]) ==
            if pair.Ok? then Before([pair.value], ParsePairs(raws[i + 1..])) else InvalidParam(pair.raw)
  {
    assert raws[i..][0] == raws[i] && raws[i..][1..] == raws[i + 1..];
  }

  lemma FromPairsNext(done: seq<Pair>, p: Pair)
    ensures FromPairs(done + [p]) == Insert(FromPairs(done), p)
  {
    assert (done + [p])[..|done|] == done;
  }

  lemma BeforeNone(r: Result<seq<Pair>>)
    ensures Before([], r) == r
  {
    if r.Ok? {
      assert [] + r.value == r.value;
    }
  }

  lemma BeforeNext(done: seq<Pair>, p: Pair, r: Result<seq<Pair>>)
    ensures Before(done, Before([p], r)) == Before(done + [p], r)
  {
    if r.Ok? {
      assert done + ([p] + r.value) == done + [p] + r.value;
    }
  }

  method FromVec(ps: seq<Pair>) returns (q: Query)
    ensures q == FromPairs(ps)
  {
    q := map[];
    for i := 0 to |ps|
      invariant q == FromPairs(ps[..i])
    {
      assert ps[..i + 1][..i] == ps[..i];
      q := Insert(q, ps[i]);
    }
    assert ps[..|ps|] == ps;
  }

  method ReadParamVec(q: Query, name: string) returns (r: Option<seq<string>>)
    ensures r == GetParamVec(q, name)
  {
    if name !in q {
      return None;
    }
    var values: seq<string> := [];
    for i := 0 to |q[name]|
      invariant values == Values(q[name][..i])
    {
      values := values + [q[name][i].value];
    }
    assert q[name][..|q[name]|] == q[name];
    return Some(values);
  }

  // ----- what a list of pairs becomes -----

  /** The pairs under one name, in order. */
  function Named(ps: seq<Pair>, name: string): seq<Pair> {
    if ps == [] then []
    else
      var front, last := ps[..|ps| - 1], ps[|ps| - 1];
      if last.name == name then Named(front, name) + [last] else Named(front, name)
  }

  /** A query holds exactly the pairs of its list, name by name, in their order. */
  lemma {:induction false} FromPairsNamed(ps: seq<Pair>, name: string)
    ensures name in FromPairs(ps) <==> Named(ps, name) != []
    ensures name in FromPairs(ps) ==> FromPairs(ps)[name] == Named(ps, name)
  {
    if ps != [] {
      FromPairsNamed(ps[..|ps| - 1], name);
    }
  }

  lemma {:induction false} NamedAppend(ps: seq<Pair>, qs: seq<Pair>, name: string)
    ensures Named(ps + qs, name) == Named(ps, name) + Named(qs, name)
    decreases |qs|
  {
    if qs == [] {
      assert ps + qs == ps;
    } else {
      var front := qs[..|qs| - 1];
      assert (ps + qs)[..|ps + qs| - 1] == ps + front;
      NamedAppend(ps, front, name);
    }
  }

  lemma {:induction false} NamedAll(ps: seq<Pair>, k: string, name: string)
    requires forall i :: 0 <= i < |ps| ==> ps[i].name == k
    ensures Named(ps, name) == if name == k then ps else []
  {
    if ps != [] {
      NamedAll(ps[..|ps| - 1], k, name);
      assert ps == ps[..|ps| - 1] + [ps[|ps| - 1]];
    }
  }

  lemma {:induction false} NamedCount(ps: seq<Pair>, x: Pair)
    ensures multiset(ps)[x] == multiset(Named(ps, x.name))[x]
  {
    if ps != [] {
      NamedCount(ps[..|ps| - 1], x);
      assert ps == ps[..|ps| - 1] + [ps[|ps| - 1]];
    }
  }

  lemma {:induction false} SameQuerySamePairs(ps: seq<Pair>, qs: seq<Pair>)
    requires FromPairs(ps) == FromPairs(qs)
    ensures multiset(ps) == multiset(qs)
  {
    forall x: Pair
      ensures multiset(ps)[x] == multiset(qs)[x]
    {
      NamedCount(ps, x);
      NamedCount(qs, x);
      FromPairsNamed(ps, x.name);
      FromPairsNamed(qs, x.name);
    }
  }

  // ----- queries, and the order in which they are printed -----

  /** Every name has pairs, all under that name: what inserting pairs makes. */
  ghost predicate WellFormed(q: Query) {
    forall k :: k in q ==> q[k] != [] && forall i :: 0 <= i < |q[k]| ==> q[k][i].name == k
  }

  lemma {:induction false} FromPairsWellFormed(ps: seq<Pair>)
    ensures WellFormed(FromPairs(ps))
  {
    if ps != [] {
      FromPairsWellFormed(ps[..|ps| - 1]);
    }
  }

  /** Each name of the query once, in any order. */
  ghost predicate ListsNames(q: Query, order: seq<string>) {
    && (forall k :: k in order <==> k in q)
    && (forall i, j :: 0 <= i < j < |order| ==> order[i] != order[j])
  }

  /** The pairs in the order in which they are printed. */
  function Flatten(q: Query, order: seq<string>): seq<Pair>
    requires forall i :: 0 <= i < |order| ==> order[i] in q
  {
    if order == [] then [] else q[order[0]] + Flatten(q, order[1..])
  }

  lemma {:induction false} PairTextsAppend(ps: seq<Pair>, qs: seq<Pair>)
    ensures PairTexts(ps + qs) == PairTexts(ps) + PairTexts(qs)
    decreases |ps|
  {
    if ps == [] {
      assert ps + qs == qs;
    } else {
      assert (ps + qs)[1..] == ps[1..] + qs;
      PairTextsAppend(ps[1..], qs);
    }
  }

  /** Printing group by group prints the pairs one after the other. */
  lemma {:induction false} PrintFlat(q: Query, order: seq<string>)
    requires WellFormed(q) && order != [] && forall i :: 0 <= i < |order| ==> order[i] in q
    ensures Flatten(q, order) != [] && Print(q, order) == PairsText(Flatten(q, order))
    decreases |order|
  {
    var g := q[order[0]];
    if |order| == 1 {
      assert Flatten(q, order) == g + Flatten(q, []) == g;
      assert GroupTexts(q, order) == [PairsText(g)];
    } else {
      var rest := Flatten(q, order[1..]);
      PrintFlat(q, order[1..]);
      PairTextsAppend(g, rest);
      JoinAppend(PairTexts(g), PairTexts(rest), '&');
      assert GroupTexts(q, order)[1..] == GroupTexts(q, order[1..]);
    }
  }

  lemma {:induction false} NamedFlat(q: Query, order: seq<string>, name: string)
    requires WellFormed(q) && forall i :: 0 <= i < |order| ==> order[i] in q
    requires forall i, j :: 0 <= i < j < |order| ==> order[i] != order[j]
    ensures Named(Flatten(q, order), name) == if name in order then q[name] else []
    decreases |order|
  {
    if order != [] {
      NamedFlat(q, order[1..], name);
      NamedAppend(q[order[0]], Flatten(q, order[1..]), name);
      NamedAll(q[order[0]], order[0], name);
    }
  }

  /** The printed pairs make the same query again. */
  lemma {:induction false} FromFlat(q: Query, order: seq<string>)
    requires WellFormed(q) && ListsNames(q, order)
    ensures FromPairs(Flatten(q, order)) == q
  {
    var r := FromPairs(Flatten(q, order));
    forall k
      ensures k in r <==> k in q
      ensures k in r ==> r[k] == q[k]
    {
      NamedFlat(q, order, k);
      FromPairsNamed(Flatten(q, order), k);
    }
    assert r.Keys == q.Keys;
  }

  // ----- parsing printed pairs -----

  predicate PlainPair(p: Pair) { '&' !in p.name && '=' !in p.name && '&' !in p.value && '=' !in p.value }

  ghost predicate Plain(ps: seq<Pair>) { forall i :: 0 <= i < |ps| ==> PlainPair(ps[i]) }

  lemma {:induction false} ParsePairText(p: Pair)
    requires PlainPair(p)
    ensures ParsePair(PairText(p)) == Ok(p)
  {
    SplitFirst(p.name, '=', p.value);
    SplitPiece(p.value, '=');
  }

  lemma {:induction false} ParsePairTexts(ps: seq<Pair>)
    requires Plain(ps)
    ensures ParsePairs(PairTexts(ps)) == Ok(ps)
  {
    if ps != [] {
      ParsePairText(ps[0]);
      ParsePairTexts(ps[1..]);
      var raws := PairTexts(ps);
      assert raws[0] == PairText(ps[0]) && raws[1..] == PairTexts(ps[1..]);
      assert ps == [ps[0]] + ps[1..];
    }
  }

  lemma {:induction false} PairTextPieces(ps: seq<Pair>)
    requires Plain(ps)
    ensures forall i :: 0 <= i < |ps| ==> '&' !in PairTexts(ps)[i]
  {
    if ps != [] {
      PairTextPieces(ps[1..]);
    }
  }

  lemma {:induction false} ParsePairsText(ps: seq<Pair>)
    requires Plain(ps) && ps != []
    ensures ParsePairs(Split(PairsText(ps), '&')) == Ok(ps)
  {
    PairTextPieces(ps);
    SplitJoin(PairTexts(ps), '&');
    ParsePairTexts(ps);
  }

  /** Whatever is parsed has no separators in names or values. */
  lemma {:induction false} ParsedIsPlain(raws: seq<string>)
    requires ParsePairs(raws).Ok? && forall i :: 0 <= i < |raws| ==> '&' !in raws[i]
    ensures Plain(ParsePairs(raws).value)
  {
    if raws != [] {
      ParsedIsPlain(raws[1..]);
      PartsLackSeparator(raws[0], '=', '&');
    }
  }

  lemma {:induction false} PartsLackSeparator(s: string, sep: char, c: char)
    requires c !in s
    ensures forall i :: 0 <= i < |Split(s, sep)| ==> c !in Split(s, sep)[i]
  {
    if s != [] {
      PartsLackSeparator(s[1..], sep, c);
    }
  }

  // ----- what is accepted -----

  /** A piece is a pair if and only if it has exactly one `=`, and then is that pair's text. */
  lemma {:induction false} ParsePairIff(raw: string)
    ensures ParsePair(raw).Ok? <==> Occurrences(raw, '=') == 1
    ensures ParsePair(raw).Ok? ==> PairText(ParsePair(raw).value) == raw
    ensures !ParsePair(raw).Ok? ==> ParsePair(raw) == InvalidParam(raw)
  {
    JoinSplit(raw, '=');
    var parts := Split(raw, '=');
    if |parts| == 2 {
      assert Join(parts[1..], '=') == parts[1];
    }
  }

  /** Pieces are parsed if and only if each has exactly one `=`; otherwise the first that has not is the
      error. */
  lemma {:induction false} ParsePairsIff(raws: seq<string>)
    ensures var r := ParsePairs(raws);
            && (r.Ok? <==> forall i :: 0 <= i < |raws| ==> Occurrences(raws[i], '=') == 1)
            && (r.Ok? ==> PairTexts(r.value) == raws)
            && (r.InvalidParam? ==> FirstBad(raws, r.raw))
  {
    if raws != [] {
      ParsePairIff(raws[0]);
      ParsePairsIff(raws[1..]);
      var rest := ParsePairs(raws[1..]);
      assert raws == [raws[0]] + raws[1..];
      if ParsePair(raws[0]).InvalidParam? {
        assert BadAt(raws, raws[0], 0);
      } else if rest.InvalidParam? {
        var i: nat :| BadAt(raws[1..], rest.raw, i);
        assert BadAt(raws, rest.raw, i + 1) by {
          forall j | 0 <= j < i + 1
            ensures Occurrences(raws[j], '=') == 1
          {
            assert j > 0 ==> raws[j] == raws[1..][j - 1];
          }
        }
      } else {
        assert ([ParsePair(raws[0]).value] + rest.value)[1..] == rest.value;
      }
    }
  }

  ghost predicate BadAt(raws: seq<string>, raw: string, i: nat) {
    && i < |raws| && raws[i] == raw && Occurrences(raw, '=') != 1
    && forall j :: 0 <= j < i ==> Occurrences(raws[j], '=') == 1
  }

  ghost predicate FirstBad(raws: seq<string>, raw: string) { exists i :: BadAt(raws, raw, i) }

  /** The accepted queries: what is left after trimming is the text of pairs without separators, and the
      query is made of these pairs. Anything else is refused, naming the first piece between `&` that does
      not have exactly one `=`. */
  lemma {:induction false} ParseIff(raw: string, q: Query)
    ensures Parse(raw) == Ok(q) <==> exists ps :: IsPairs(ps, Clean(raw)) && FromPairs(ps) == q
    ensures Parse(raw).InvalidParam? ==> FirstBad(Split(Clean(raw), '&'), Parse(raw).raw)
  {
    var raws := Split(Clean(raw), '&');
    JoinSplit(Clean(raw), '&');
    ParsePairsIff(raws);
    var r := ParsePairs(raws);
    if r.Ok? {
      ParsedIsPlain(raws);
      assert IsPairs(r.value, Clean(raw));
    }
    if ps :| IsPairs(ps, Clean(raw)) && FromPairs(ps) == q {
      ParsePairsText(ps);
    }
  }

  ghost predicate IsPairs(ps: seq<Pair>, text: string) { ps != [] && Plain(ps) && PairsText(ps) == text }

  // ----- what trimming does to printed pairs -----

  function TrimName(p: Pair): Pair { Pair(TrimMarks(TrimStart(p.name)), p.value) }

  function TrimValue(p: Pair): Pair { Pair(p.name, TrimEnd(p.value)) }

  function TrimFirst(ps: seq<Pair>): seq<Pair>
    requires ps != []
  {
    [TrimName(ps[0])] + ps[1..]
  }

  function TrimLast(ps: seq<Pair>): seq<Pair>
    requires ps != []
  {
    ps[..|ps| - 1] + [TrimValue(ps[|ps| - 1])]
  }

  /** The printed text up to the first `=` is the first name. */
  lemma {:induction false} TextFirst(ps: seq<Pair>) returns (tail: string)
    requires ps != []
    ensures forall name: string :: PairsText([Pair(name, ps[0].value)] + ps[1..]) == name + ['='] + tail
    ensures PairsText(ps) == ps[0].name + ['='] + tail
  {
    var rest := PairTexts(ps[1..]);
    tail := if |ps| == 1 then ps[0].value else ps[0].value + ['&'] + Join(rest, '&');
    forall name: string
      ensures PairsText([Pair(name, ps[0].value)] + ps[1..]) == name + ['='] + tail
    {
      var qs := [Pair(name, ps[0].value)] + ps[1..];
      assert qs[1..] == ps[1..];
      assert PairTexts(qs) == [name + ['='] + ps[0].value] + rest;
      assert PairTexts(qs)[1..] == rest;
    }
    assert [Pair(ps[0].name, ps[0].value)] + ps[1..] == ps;
  }

  /** The printed text after the last `=` is the last value. */
  lemma {:induction false} TextLast(ps: seq<Pair>) returns (head: string)
    requires ps != []
    ensures forall value: string :: PairsText(ps[..|ps| - 1] + [Pair(ps[|ps| - 1].name, value)]) == head + ['='] + value
    ensures PairsText(ps) == head + ['='] + ps[|ps| - 1].value
  {
    var front, last := ps[..|ps| - 1], ps[|ps| - 1];
    head := if front == [] then last.name else PairsText(front) + ['&'] + last.name;
    forall value: string
      ensures PairsText(front + [Pair(last.name, value)]) == head + ['='] + value
    {
      var p := Pair(last.name, value);
      PairTextsAppend(front, [p]);
      assert PairTexts([p]) == [PairText(p)];
      if front == [] {
        assert front + [p] == [p] && PairsText([p]) == PairText(p);
      } else {
        JoinAppend(PairTexts(front), [PairText(p)], '&');
      }
    }
    assert front + [Pair(last.name, last.value)] == ps;
  }

  lemma {:induction false} TrimStartOfText(ps: seq<Pair>)
    requires ps != []
    ensures var qs := [Pair(TrimStart(ps[0].name), ps[0].value)] + ps[1..]; TrimStart(PairsText(ps)) == PairsText(qs)
  {
    var tail := TextFirst(ps);
    TrimStartBefore(ps[0].name, '=', tail);
  }

  lemma {:induction false} TrimMarksOfText(ps: seq<Pair>)
    requires ps != []
    ensures var qs := [Pair(TrimMarks(ps[0].name), ps[0].value)] + ps[1..]; TrimMarks(PairsText(ps)) == PairsText(qs)
  {
    var tail := TextFirst(ps);
    TrimMarksBefore(ps[0].name, '=', tail);
  }

  lemma {:induction false} TrimEndOfText(ps: seq<Pair>)
    requires ps != []
    ensures TrimEnd(PairsText(ps)) == PairsText(TrimLast(ps))
  {
    var head := TextLast(ps);
    TrimEndAfter(head, '=', ps[|ps| - 1].value);
  }

  /** The parser reads printed pairs with the first name and the last value trimmed. */
  function Trimmed(ps: seq<Pair>): seq<Pair>
    requires ps != []
  {
    TrimLast(TrimFirst(ps))
  }

  lemma {:induction false} CleanText(ps: seq<Pair>)
    requires ps != []
    ensures Clean(PairsText(ps)) == PairsText(Trimmed(ps))
  {
    var a := [Pair(TrimStart(ps[0].name), ps[0].value)] + ps[1..];
    var b := TrimLast(a);
    var c := [Pair(TrimMarks(b[0].name), b[0].value)] + b[1..];
    TrimStartOfText(ps);
    TrimEndOfText(a);
    TrimMarksOfText(b);
    assert c == Trimmed(ps);
  }

  lemma {:induction false} TrimNamePlain(p: Pair)
    requires PlainPair(p)
    ensures PlainPair(TrimName(p)) && PlainPair(TrimValue(p))
  {
    TrimKeepsOut(p.name, '&');
    TrimKeepsOut(p.name, '=');
    TrimKeepsOut(TrimStart(p.name), '&');
    TrimKeepsOut(TrimStart(p.name), '=');
    TrimKeepsOut(p.value, '&');
    TrimKeepsOut(p.value, '=');
  }

  lemma {:induction false} TrimmedPlain(ps: seq<Pair>)
    requires ps != [] && Plain(ps)
    ensures Plain(Trimmed(ps))
  {
    TrimNamePlain(ps[0]);
    var qs := TrimFirst(ps);
    assert Plain(qs);
    TrimNamePlain(qs[|qs| - 1]);
  }

  /** The text starts and ends with something that is not trimmed. */
  predicate EndsKept(ps: seq<Pair>)
    requires ps != []
  {
    var name, value := ps[0].name, ps[|ps| - 1].value;
    (name == [] || Stops(name[0])) && (value == [] || !IsWhitespace(value[|value| - 1]))
  }

  /** Total length of names and values. */
  function Weight(ps: seq<Pair>): nat {
    if ps == [] then 0 else |ps[0].name| + |ps[0].value| + Weight(ps[1..])
  }

  lemma {:induction false} WeightAppend(ps: seq<Pair>, qs: seq<Pair>)
    ensures Weight(ps + qs) == Weight(ps) + Weight(qs)
    decreases |ps|
  {
    if ps == [] {
      assert ps + qs == qs;
    } else {
      assert (ps + qs)[1..] == ps[1..] + qs;
      WeightAppend(ps[1..], qs);
    }
  }

  lemma {:induction false} WithoutOne(ps: seq<Pair>, j: nat)
    requires j < |ps|
    ensures multiset(ps[..j] + ps[j + 1..]) == multiset(ps) - multiset{ps[j]}
    ensures Weight(ps) == |ps[j].name| + |ps[j].value| + Weight(ps[..j] + ps[j + 1..])
  {
    assert ps == ps[..j] + ([ps[j]] + ps[j + 1..]);
    WeightAppend(ps[..j], [ps[j]] + ps[j + 1..]);
    WeightAppend(ps[..j], ps[j + 1..]);
    assert ([ps[j]] + ps[j + 1..])[1..] == ps[j + 1..];
  }

  lemma {:induction false} TailWithoutOne(ps: seq<Pair>)
    requires ps != []
    ensures multiset(ps[1..]) == multiset(ps) - multiset{ps[0]}
  {
    assert ps == [ps[0]] + ps[1..];
  }

  lemma {:induction false} PlaceOf(x: Pair, qs: seq<Pair>, ps: seq<Pair>) returns (j: nat)
    requires multiset(ps) == multiset(qs) && x in ps
    ensures j < |qs| && qs[j] == x
  {
    assert x in multiset(ps);
    j :| 0 <= j < |qs| && qs[j] == x;
  }

  /** The total does not depend on the order of the pairs. */
  lemma {:induction false} WeightOfMultiset(ps: seq<Pair>, qs: seq<Pair>)
    requires multiset(ps) == multiset(qs)
    ensures Weight(ps) == Weight(qs)
    decreases |ps|
  {
    if ps == [] {
      assert |multiset(qs)| == |multiset(ps)| == 0;
      assert qs == [];
    } else {
      var j := PlaceOf(ps[0], qs, ps);
      var rest := qs[..j] + qs[j + 1..];
      WithoutOne(qs, j);
      TailWithoutOne(ps);
      WeightOfMultiset(ps[1..], rest);
    }
  }

  lemma {:induction false} TrimFirstWeight(ps: seq<Pair>)
    requires ps != []
    ensures var name := ps[0].name;
            if name == [] || Stops(name[0]) then TrimFirst(ps) == ps else Weight(TrimFirst(ps)) < Weight(ps)
  {
    TrimShortens(ps[0].name);
    TrimShortens(TrimStart(ps[0].name));
    assert ps == [ps[0]] + ps[1..] && TrimFirst(ps)[1..] == ps[1..];
  }

  lemma {:induction false} TrimLastWeight(ps: seq<Pair>)
    requires ps != []
    ensures var value := ps[|ps| - 1].value;
            if value == [] || !IsWhitespace(value[|value| - 1]) then TrimLast(ps) == ps
            else Weight(TrimLast(ps)) < Weight(ps)
  {
    var front, last := ps[..|ps| - 1], ps[|ps| - 1];
    TrimShortens(last.value);
    assert ps == front + [last];
    WeightAppend(front, [last]);
    WeightAppend(front, [TrimValue(last)]);
    assert [last][1..] == [] && [TrimValue(last)][1..] == [];
  }

  /** Trimming changes the pairs exactly when an end is not kept, and then makes them shorter. */
  lemma {:induction false} TrimmedWeight(ps: seq<Pair>)
    requires ps != []
    ensures if EndsKept(ps) then Trimmed(ps) == ps else Weight(Trimmed(ps)) < Weight(ps)
  {
    TrimFirstWeight(ps);
    TrimLastWeight(TrimFirst(ps));
    assert TrimFirst(ps)[|ps| - 1].value == ps[|ps| - 1].value;
  }

  // ----- round trip -----

  lemma {:induction false} ParsePrinted(ps: seq<Pair>)
    requires ps != [] && Plain(ps)
    ensures Parse(PairsText(ps)) == Ok(FromPairs(Trimmed(ps)))
  {
    CleanText(ps);
    TrimmedPlain(ps);
    ParsePairsText(Trimmed(ps));
  }

  /** Parsing printed pairs gives their query back if and only if none has a separator in it, the first
      name does not start with a blank or `?`, and the last value does not end in a blank. */
  lemma {:induction false} PairsRoundTripIff(ps: seq<Pair>)
    requires ps != []
    ensures Parse(PairsText(ps)) == Ok(FromPairs(ps)) <==> Plain(ps) && EndsKept(ps)
  {
    if Plain(ps) {
      ParsePrinted(ps);
      TrimmedWeight(ps);
      if FromPairs(Trimmed(ps)) == FromPairs(ps) {
        SameQuerySamePairs(Trimmed(ps), ps);
        WeightOfMultiset(Trimmed(ps), ps);
      }
    } else if Parse(PairsText(ps)) == Ok(FromPairs(ps)) {
      var raws := Split(Clean(PairsText(ps)), '&');
      var qs := ParsePairs(raws).value;
      ParsedIsPlain(raws);
      SameQuerySamePairs(qs, ps);
      SamePlain(qs, ps);
    }
  }

  lemma {:induction false} SamePlain(qs: seq<Pair>, ps: seq<Pair>)
    requires multiset(qs) == multiset(ps) && Plain(qs)
    ensures Plain(ps)
  {
    forall i | 0 <= i < |ps|
      ensures PlainPair(ps[i])
    {
      assert ps[i] in multiset(ps);
      assert ps[i] in multiset(qs);
      var j :| 0 <= j < |qs| && qs[j] == ps[i];
    }
  }

  /** Round trip: printing a query with its names in any order and parsing the text gives the same query,
      exactly when the printed pairs have no separators and keep their ends. */
  lemma {:induction false} PrintParseIff(q: Query, order: seq<string>)
    requires WellFormed(q) && q != map[] && ListsNames(q, order)
    ensures order != [] && (forall i :: 0 <= i < |order| ==> order[i] in q) && Flatten(q, order) != []
    ensures Parse(Print(q, order)) == Ok(q) <==> Plain(Flatten(q, order)) && EndsKept(Flatten(q, order))
  {
    var k :| k in q;
    assert k in order;
    assert forall i :: 0 <= i < |order| ==> order[i] in order;
    PrintFlat(q, order);
    FromFlat(q, order);
    PairsRoundTripIff(Flatten(q, order));
  }

  /** A pair that survives in any place: no separators, no blank or `?` in front, no blank at the end. */
  predicate Safe(p: Pair) {
    PlainPair(p) && (p.name == [] || Stops(p.name[0])) && (p.value == [] || !IsWhitespace(p.value[|p.value| - 1]))
  }

  lemma {:induction false} FlatSafe(q: Query, order: seq<string>)
    requires forall i :: 0 <= i < |order| ==> order[i] in q
    requires forall k :: k in q ==> forall i :: 0 <= i < |q[k]| ==> Safe(q[k][i])
    ensures forall i :: 0 <= i < |Flatten(q, order)| ==> Safe(Flatten(q, order)[i])
    decreases |order|
  {
    if order != [] {
      FlatSafe(q, order[1..]);
    }
  }

  lemma {:induction false} FromPairsSafe(ps: seq<Pair>)
    requires forall i :: 0 <= i < |ps| ==> Safe(ps[i])
    ensures forall k :: k in FromPairs(ps) ==> forall i :: 0 <= i < |FromPairs(ps)[k]| ==> Safe(FromPairs(ps)[k][i])
  {
    if ps != [] {
      FromPairsSafe(ps[..|ps| - 1]);
    }
  }

  /** The places of a name in a list of pairs, in order. */
  ghost predicate Places(at: seq<nat>, ps: seq<Pair>, name: string) {
    && (forall i, j :: 0 <= i < j < |at| ==> at[i] < at[j])
    && (forall i :: 0 <= i < |at| ==> at[i] < |ps| && ps[at[i]].name == name)
    && (forall k :: 0 <= k < |ps| && ps[k].name == name ==> k in at)
  }

  ghost predicate Picks(at: seq<nat>, ps: seq<Pair>, qs: seq<Pair>) {
    |qs| == |at| && forall i :: 0 <= i < |at| ==> at[i] < |ps| && qs[i] == ps[at[i]]
  }

  lemma {:induction false} NamedPlaces(ps: seq<Pair>, name: string) returns (at: seq<nat>)
    ensures Places(at, ps, name) && Picks(at, ps, Named(ps, name))
  {
    if ps == [] {
      at := [];
    } else {
      var front, p := ps[..|ps| - 1], ps[|ps| - 1];
      var rest := NamedPlaces(front, name);
      assert front + [p] == ps;
      PlacesNext(rest, front, p, name);
      PicksNext(rest, front, p, Named(front, name));
      at := if p.name == name then rest + [|front|] else rest;
    }
  }

  lemma {:induction false} PicksNext(at: seq<nat>, ps: seq<Pair>, p: Pair, qs: seq<Pair>)
    requires Picks(at, ps, qs)
    ensures Picks(at, ps + [p], qs) && Picks(at + [|ps|], ps + [p], qs + [p])
  {
  }

  lemma {:induction false} PlacesNext(at: seq<nat>, ps: seq<Pair>, p: Pair, name: string)
    requires Places(at, ps, name)
    ensures Places(if p.name == name then at + [|ps|] else at, ps + [p], name)
  {
    var at' := if p.name == name then at + [|ps|] else at;
    forall k | 0 <= k < |ps + [p]| && (ps + [p])[k].name == name
      ensures k in at'
    {
      if k < |ps| {
        assert k in at;
      } else {
        assert at'[|at|] == k;
      }
    }
  }

  /** All values of the name, in the order of the list; none if the name does not occur. */
  ghost predicate Answers(r: Option<seq<string>>, ps: seq<Pair>, name: string) {
    && (r.None? <==> forall k :: 0 <= k < |ps| ==> ps[k].name != name)
    && (r.Some? ==> exists at :: Places(at, ps, name) && ValuesAt(r.value, ps, at))
  }

  ghost predicate ValuesAt(vs: seq<string>, ps: seq<Pair>, at: seq<nat>) {
    |vs| == |at| && forall i :: 0 <= i < |at| ==> at[i] < |ps| && vs[i] == ps[at[i]].value
  }

  lemma {:induction false} FromPairsAnswers(ps: seq<Pair>, name: string)
    ensures Answers(GetParamVec(FromPairs(ps), name), ps, name)
  {
    FromPairsNamed(ps, name);
    var at := NamedPlaces(ps, name);
    var r := GetParamVec(FromPairs(ps), name);
    if r.Some? {
      assert Places(at, ps, name) && ValuesAt(r.value, ps, at);
      assert ps[at[0]].name == name;
    } else {
      assert at == [];
    }
  }

  /** For every non-empty list of safe pairs, printing in any order and parsing again answers every
      parameter with all its values, in the order of the list. */
  lemma {:induction false} ParamsSurvive(ps: seq<Pair>, order: seq<string>, name: string)
    requires ps != [] && (forall i :: 0 <= i < |ps| ==> Safe(ps[i])) && ListsNames(FromPairs(ps), order)
    ensures forall i :: 0 <= i < |order| ==> order[i] in FromPairs(ps)
    ensures var r := Parse(Print(FromPairs(ps), order)); r.Ok? && Answers(GetParamVec(r.value, name), ps, name)
  {
    SafePairsPrintParse(ps, order);
    FromPairsAnswers(ps, name);
  }

  lemma {:induction false} SafePairsPrintParse(ps: seq<Pair>, order: seq<string>)
    requires ps != [] && (forall i :: 0 <= i < |ps| ==> Safe(ps[i])) && ListsNames(FromPairs(ps), order)
    ensures forall i :: 0 <= i < |order| ==> order[i] in FromPairs(ps)
    ensures Parse(Print(FromPairs(ps), order)) == Ok(FromPairs(ps))
  {
    var q := FromPairs(ps);
    FromPairsWellFormed(ps);
    assert ps[|ps| - 1].name in q;
    PrintParseIff(q, order);
    FromPairsSafe(ps);
    FlatSafe(q, order);
  }

  /** The name `?b` is read from the middle of a query, and lost when printing puts it in front. */
  lemma {:induction false} MarkedNameInFront(a: Pair, b: Pair)
    requires Safe(a) && PlainPair(b) && a.name != b.name && b.name != [] && b.name[0] == '?'
    requires b.value == [] || !IsWhitespace(b.value[|b.value| - 1])
    ensures var q := map[a.name := [a], b.name := [b]];
            Parse(Print(q, [a.name, b.name])) == Ok(q) && Parse(Print(q, [b.name, a.name])) != Ok(q)
  {
    var q := map[a.name := [a], b.name := [b]];
    var x, y := [a.name, b.name], [b.name, a.name];
    assert x[1..] == [b.name] && y[1..] == [a.name];
    assert Flatten(q, [b.name]) == [b] + Flatten(q, []) && Flatten(q, [a.name]) == [a] + Flatten(q, []);
    assert Flatten(q, x) == [a, b] && Flatten(q, y) == [b, a];
    assert a.name in q;
    PrintParseIff(q, x);
    PrintParseIff(q, y);
  }
}

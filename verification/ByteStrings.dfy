/** Byte strings: the lexicographic order `<` of Rust byte slices, and the search
    for a delimiter that the decoder performs with `iter().position(..)`. */
module ByteStrings {

  type Byte = b: int | 0 <= b < 256
  type Bytes = seq<Byte>

  /** Strict lexicographic order. */
  predicate Less(a: Bytes, b: Bytes) {
    b != [] && (a == [] || a[0] < b[0] || (a[0] == b[0] && Less(a[1..], b[1..])))
  }

  lemma LessIrreflexive(a: Bytes)
    ensures !Less(a, a)
  {
    if a != [] {
      LessIrreflexive(a[1..]);
    }
  }

  lemma {:induction false} LessTransitive(a: Bytes, b: Bytes, c: Bytes)
    requires Less(a, b) && Less(b, c)
    ensures Less(a, c)
  {
    if a != [] && a[0] == b[0] && b[0] == c[0] {
      LessTransitive(a[1..], b[1..], c[1..]);
    }
  }

  lemma {:induction false} LessTotal(a: Bytes, b: Bytes)
    ensures a == b || Less(a, b) || Less(b, a)
  {
    if a != [] && b != [] && a[0] == b[0] {
      LessTotal(a[1..], b[1..]);
      assert a == [a[0]] + a[1..] && b == [b[0]] + b[1..];
    }
  }

  /** The two strings first differ where `b` has the larger byte, or `b` only extends `a`. */
  ghost predicate Precedes(a: Bytes, b: Bytes) {
    exists k :: DivergeAt(a, b, k)
  }

  predicate DivergeAt(a: Bytes, b: Bytes, k: nat) {
    k <= |a| && k < |b| && a[..k] == b[..k] && (k == |a| || a[k] < b[k])
  }

  /** The recursive comparison is the byte order, both ways. */
  lemma {:induction false} LessIff(a: Bytes, b: Bytes)
    ensures Less(a, b) <==> Precedes(a, b)
  {
    if Less(a, b) {
      var k := Divergence(a, b);
    }
    if k :| DivergeAt(a, b, k) {
      DivergedLess(a, b, k);
    }
  }

  lemma {:induction false} Divergence(a: Bytes, b: Bytes) returns (k: nat)
    requires Less(a, b)
    ensures DivergeAt(a, b, k)
  {
    if a == [] || a[0] < b[0] {
      k := 0;
    } else {
      var n := Divergence(a[1..], b[1..]);
      k := n + 1;
      assert a[..k] == [a[0]] + a[1..][..n] && b[..k] == [b[0]] + b[1..][..n];
    }
  }

  lemma {:induction false} DivergedLess(a: Bytes, b: Bytes, k: nat)
    requires DivergeAt(a, b, k)
    ensures Less(a, b)
  {
    if k > 0 {
      assert a[0] == a[..k][0] == b[..k][0] == b[0];
      assert a[1..][..k - 1] == a[..k][1..] && b[1..][..k - 1] == b[..k][1..];
      DivergedLess(a[1..], b[1..], k - 1);
    }
  }

  /** Index of the first `x` at or after `pos`; `|b|` when there is none. */
  function FindByte(b: Bytes, pos: nat, x: Byte): (i: nat)
    requires pos <= |b|
    ensures pos <= i <= |b|
    ensures forall j :: pos <= j < i ==> b[j] != x
    ensures i < |b| ==> b[i] == x
    decreases |b| - pos
  {
    if pos == |b| || b[pos] == x then pos else FindByte(b, pos + 1, x)
  }

  /** `part` occurs in `b` at `pos`. */
  predicate OccursAt(b: Bytes, pos: nat, part: Bytes) {
    pos + |part| <= |b| && b[pos..pos + |part|] == part
  }

  lemma OccursSplit(b: Bytes, pos: nat, x: Bytes, y: Bytes)
    requires OccursAt(b, pos, x + y)
    ensures OccursAt(b, pos, x) && OccursAt(b, pos + |x|, y)
  {
    var s := b[pos..pos + |x| + |y|];
    assert s[..|x|] == x && s[|x|..] == y;
    assert b[pos..pos + |x|] == s[..|x|];
    assert b[pos + |x|..pos + |x| + |y|] == s[|x|..];
  }

  lemma OccursByte(b: Bytes, pos: nat, x: Byte)
    requires OccursAt(b, pos, [x])
    ensures b[pos] == x
  {
    assert b[pos] == b[pos..pos + 1][0];
  }
}

/** Decimal text of integers: what `to_string` prints and what `str::parse::<i64>` reads. */
module DecimalText {
  import opened Wrappers
  import opened ByteStrings

  const MINUS: Byte := 45
  const PLUS: Byte := 43
  const ZERO: Byte := 48
  const I64_MIN: int := -0x8000_0000_0000_0000
  const I64_MAX: int := 0x7FFF_FFFF_FFFF_FFFF

  predicate IsDigit(c: Byte) { 48 <= c <= 57 }

  predicate AllDigits(s: Bytes) { forall i :: 0 <= i < |s| ==> IsDigit(s[i]) }

  predicate InI64(n: int) { I64_MIN <= n <= I64_MAX }

  /** Digits of a natural number, most significant first, no padding. */
  function Digits(n: nat): (s: Bytes)
    ensures s != [] && AllDigits(s)
    ensures s[0] == ZERO <==> n == 0
  {
    if n < 10 then [48 + n] else Digits(n / 10) + [48 + n % 10]
  }

  /** The text of an integer, as `i64::to_string` prints it. */
  function Decimal(n: int): (s: Bytes)
    ensures s != []
  {
    if n < 0 then [MINUS] + Digits(-n) else Digits(n)
  }

  function DigitsValue(s: Bytes): (n: nat)
    requires AllDigits(s)
  {
    if s == [] then 0
    else DigitsValue(s[..|s| - 1]) * 10 + (s[|s| - 1] - 48)
  }

  /** Rust's `parse::<i64>`: an optional sign of either kind, then one or more digits
      whose value fits in 64 bits. */
  function ParseI64(s: Bytes): (r: Option<int>)
    ensures r.Some? ==> InI64(r.value) && s != []
  {
    if s == [] then None
    else
      var digits := if s[0] == MINUS || s[0] == PLUS then s[1..] else s;
      if digits == [] || !AllDigits(digits) then None
      else
        var n: int := if s[0] == MINUS then 0 - DigitsValue(digits) else DigitsValue(digits);
        if InI64(n) then Some(n) else None
  }

  function Pow10(n: nat): nat { if n == 0 then 1 else 10 * Pow10(n - 1) }

  /** Decimal place value: a digit stands for itself, and what stands before `n` digits counts 10^n fold. */
  lemma {:induction false} PlaceValue(x: Bytes, y: Bytes)
    requires AllDigits(x) && AllDigits(y)
    ensures DigitsValue(x + y) == DigitsValue(x) * Pow10(|y|) + DigitsValue(y)
    ensures |y| == 1 ==> DigitsValue(y) == y[0] - 48
    decreases |y|
  {
    if y == [] {
      assert x + y == x;
    } else {
      var front := y[..|y| - 1];
      assert (x + y)[..|x + y| - 1] == x + front;
      PlaceValue(x, front);
      assert |y| == 1 ==> front == [];
      PlaceStep(DigitsValue(x), Pow10(|front|));
    }
  }

  lemma PlaceStep(v: nat, p: nat)
    ensures v * (10 * p) == v * p * 10
  {
  }

  lemma {:induction false} ValueOfDigits(n: nat)
    ensures DigitsValue(Digits(n)) == n
  {
    if n >= 10 {
      ValueOfDigits(n / 10);
      var s := Digits(n);
      assert s[..|s| - 1] == Digits(n / 10);
    }
  }

  lemma {:induction false} DigitsOfValue(s: Bytes)
    requires s != [] && AllDigits(s) && (|s| == 1 || s[0] != ZERO)
    ensures Digits(DigitsValue(s)) == s
    ensures s[0] != ZERO ==> DigitsValue(s) > 0
  {
    var front := s[..|s| - 1];
    assert s == front + [s[|s| - 1]];
    if |s| == 1 {
      assert DigitsValue(front) == 0;
    } else {
      DigitsOfValue(front);
    }
  }

  lemma {:induction false} DigitsNoLonger(s: Bytes)
    requires s != [] && AllDigits(s)
    ensures |Digits(DigitsValue(s))| <= |s|
  {
    var front := s[..|s| - 1];
    if |s| == 1 {
      assert DigitsValue(front) == 0;
    } else {
      DigitsNoLonger(front);
    }
  }

  /** Printing and parsing: the printed text of any 64-bit integer parses back. */
  lemma ParseDecimal(n: int)
    requires InI64(n)
    ensures ParseI64(Decimal(n)) == Some(n)
  {
    var s := Decimal(n);
    if n < 0 {
      ValueOfDigits(-n);
      assert s[1..] == Digits(-n);
    } else {
      ValueOfDigits(n);
      assert IsDigit(s[0]);
    }
  }

  /** Parsing and printing: text without padding or a `+` is the printed text of its
      value, and a `+`-signed text is strictly longer than the printed text. */
  lemma DecimalOfParse(s: Bytes)
    requires ParseI64(s).Some?
    requires |s| > 1 ==> s[0] != ZERO && !(s[0] == MINUS && s[1] == ZERO)
    ensures s[0] != PLUS ==> Decimal(ParseI64(s).value) == s
    ensures s[0] == PLUS ==> |Decimal(ParseI64(s).value)| < |s|
  {
    if s[0] == MINUS {
      DigitsOfValue(s[1..]);
      assert s == [MINUS] + s[1..];
    } else if s[0] == PLUS {
      DigitsNoLonger(s[1..]);
    } else {
      DigitsOfValue(s);
    }
  }
}

/** IEEE 754 binary64 patterns: classification and order, on the 64 bits of the pattern. */
module Float64 {

  const TWO52: int := 0x10_0000_0000_0000
  const TWO63: int := 0x8000_0000_0000_0000
  const TWO64: int := 0x1_0000_0000_0000_0000

  type Bits64 = b: int | 0 <= b < TWO64

  predicate Negative(b: Bits64) { b >= TWO63 }

  /** Sign bit cleared. */
  function Magnitude(b: Bits64): (m: nat)
    ensures m < TWO63
  {
    if Negative(b) then b - TWO63 else b
  }

  function Exponent(b: Bits64): (e: nat)
    ensures e < 2048
  {
    Magnitude(b) / TWO52
  }

  function Mantissa(b: Bits64): (m: nat)
    ensures m < TWO52 && Magnitude(b) == Exponent(b) * TWO52 + m
  {
    Magnitude(b) % TWO52
  }

  /** Not zero, subnormal, infinite or NaN. */
  predicate IsNormal(b: Bits64) { 0 < Exponent(b) < 2047 }

  function Pow2(n: nat): (p: nat)
    ensures p >= 1
  {
    if n == 0 then 1 else 2 * Pow2(n - 1)
  }

  /** The value of a pattern, exactly, in units of 2^-1074; an infinity is above every finite value. */
  function Value(b: Bits64): int {
    var magnitude := if Exponent(b) == 0 then Mantissa(b) else (TWO52 + Mantissa(b)) * Pow2(Exponent(b) - 1);
    if Negative(b) then -magnitude else magnitude
  }

  lemma {:induction false} Pow2Monotone(a: nat, b: nat)
    requires a <= b
    ensures Pow2(a) <= Pow2(b)
    decreases b
  {
    if a < b {
      Pow2Monotone(a, b - 1);
    }
  }

  /** A larger exponent outweighs any mantissa. */
  lemma {:induction false} ExponentWins(m: nat, e: nat, m': nat, e': nat)
    requires m < TWO52 && m' < TWO52 && 1 <= e < e'
    ensures (TWO52 + m) * Pow2(e - 1) < (TWO52 + m') * Pow2(e' - 1)
  {
    Pow2Monotone(e, e' - 1);
    var p, q := Pow2(e - 1), Pow2(e' - 1);
    assert 2 * p <= q;
    assert (TWO52 + m) * p < (2 * TWO52) * p == TWO52 * (2 * p);
    assert TWO52 * (2 * p) <= TWO52 * q <= (TWO52 + m') * q;
  }

  /** On patterns without a sign, bit order is value order. */
  lemma {:induction false} BitOrderIsValueOrder(a: Bits64, b: Bits64)
    requires !Negative(a) && !Negative(b)
    ensures a < b <==> Value(a) < Value(b)
  {
    if a < b {
      PositiveLess(a, b);
    } else if b < a {
      PositiveLess(b, a);
    }
  }

  lemma {:induction false} PositiveLess(a: Bits64, b: Bits64)
    requires !Negative(a) && !Negative(b) && a < b
    ensures Value(a) < Value(b)
  {
    var e, e' := Exponent(a), Exponent(b);
    var m, m' := Mantissa(a), Mantissa(b);
    assert e <= e';
    if e == e' {
      assert m < m';
      if e > 0 {
        ScaleLess(TWO52 + m, TWO52 + m', Pow2(e - 1));
      }
    } else if e == 0 {
      ScaleAtLeast(TWO52 + m', Pow2(e' - 1));
    } else {
      ExponentWins(m, e, m', e');
    }
  }

  lemma ScaleLess(x: nat, y: nat, p: nat)
    requires x < y && p >= 1
    ensures x * p < y * p
  {
  }

  lemma ScaleAtLeast(x: nat, p: nat)
    requires p >= 1
    ensures x * p >= x
  {
  }

  lemma {:induction false} NegativeValue(b: Bits64)
    requires Negative(b)
    ensures Value(b) <= 0
  {
    if Exponent(b) > 0 {
      ScaleAtLeast(TWO52 + Mantissa(b), Pow2(Exponent(b) - 1));
    }
  }

  /** The normal patterns, by their bits below the sign. */
  lemma {:induction false} NormalIff(b: Bits64)
    ensures IsNormal(b) <==> 0x0010_0000_0000_0000 <= b % 0x8000_0000_0000_0000 <= 0x7FEF_FFFF_FFFF_FFFF
  {
    assert Magnitude(b) == b % TWO63;
  }

  /** The sign bit negates the value. */
  lemma {:induction false} SignNegates(b: Bits64)
    requires !Negative(b)
    ensures Value(b + TWO63) == -Value(b)
  {
    assert Magnitude(b + TWO63) == Magnitude(b);
  }

  /** The values, from zero up: the next pattern is larger by one unit in the last place, which is the
      smallest value, doubled once for every exponent from the second on. */
  lemma {:induction false} NextValue(b: Bits64)
    requires b + 1 < TWO63
    ensures Value(0) == 0
    ensures Value(b + 1) - Value(b) == Pow2(if b < TWO52 then 0 else b / TWO52 - 1)
  {
    var e, m := Exponent(b), Mantissa(b);
    if m + 1 < TWO52 {
      assert Exponent(b + 1) == e && Mantissa(b + 1) == m + 1;
      if e > 0 {
        OneMore(TWO52 + m, Pow2(e - 1));
      }
    } else {
      assert Exponent(b + 1) == e + 1 && Mantissa(b + 1) == 0;
      if e > 0 {
        Carry(Pow2(e - 1));
      }
    }
  }

  lemma OneMore(x: nat, p: nat)
    ensures (x + 1) * p - x * p == p
  {
  }

  lemma Carry(p: nat)
    ensures TWO52 * (2 * p) - (TWO52 + TWO52 - 1) * p == p
  {
  }

  // ----- whole seconds -----

  lemma {:induction false} Pow2Add(a: nat, b: nat)
    ensures Pow2(a + b) == Pow2(a) * Pow2(b)
  {
    if a > 0 {
      Pow2Add(a - 1, b);
      assert 2 * (Pow2(a - 1) * Pow2(b)) == 2 * Pow2(a - 1) * Pow2(b);
    }
  }

  lemma {:induction false} Pow2Of52()
    ensures Pow2(52) == TWO52
  {
    assert Pow2(0) == 1 && Pow2(1) == 2 && Pow2(2) == 4 && Pow2(3) == 8;
    assert Pow2(4) == 16;
    Pow2Add(4, 4);
    Pow2Add(8, 8);
    Pow2Add(16, 16);
    Pow2Add(32, 16);
    Pow2Add(48, 4);
  }

  /** The position of the highest bit. */
  function Log2(n: nat): (j: nat)
    requires n > 0
    ensures Pow2(j) <= n < Pow2(j + 1)
  {
    if n == 1 then 0 else Log2(n / 2) + 1
  }

  /** The pattern of a whole number: the highest bit in the exponent, the others on top of the mantissa. */
  function WholeBits(n: nat): int
    requires 0 < n < 2 * TWO52
  {
    var j := Log2(n);
    LogAtMost52(n);
    (1023 + j) * TWO52 + (n - Pow2(j)) * Pow2(52 - j)
  }

  lemma {:induction false} LogAtMost52(n: nat)
    requires 0 < n < 2 * TWO52
    ensures Log2(n) <= 52
  {
    if Log2(n) > 52 {
      Pow2Monotone(53, Log2(n));
      Pow2Of52();
    }
  }

  lemma {:induction false} WholeMantissa(n: nat, j: nat)
    requires j <= 52 && Pow2(j) <= n < Pow2(j + 1)
    ensures 0 <= (n - Pow2(j)) * Pow2(52 - j) < TWO52
    ensures TWO52 + (n - Pow2(j)) * Pow2(52 - j) == n * Pow2(52 - j)
  {
    Pow2Add(j, 52 - j);
    Pow2Of52();
    ScaleLess(n - Pow2(j), Pow2(j), Pow2(52 - j));
    assert n * Pow2(52 - j) == (n - Pow2(j)) * Pow2(52 - j) + Pow2(j) * Pow2(52 - j);
  }

  /** The pattern of a whole number `n` below 2^53 is normal and has the value `n`, in units of 2^-1074. */
  lemma {:induction false} WholeValue(n: nat)
    requires 0 < n < 2 * TWO52
    ensures 0 <= WholeBits(n) < TWO63 && IsNormal(WholeBits(n)) && Value(WholeBits(n)) == n * Pow2(1074)
  {
    var j := Log2(n);
    LogAtMost52(n);
    WholeMantissa(n, j);
    WholeFields(j, (n - Pow2(j)) * Pow2(52 - j));
    Pow2Add(52 - j, 1022 + j);
    Reassociate(n, Pow2(52 - j), Pow2(1022 + j));
  }

  lemma {:induction false} WholeFields(j: nat, m: nat)
    requires j <= 52 && m < TWO52
    ensures var b := (1023 + j) * TWO52 + m;
            b < TWO63 && Exponent(b) == 1023 + j && Mantissa(b) == m
  {
  }

  lemma Reassociate(x: nat, y: nat, z: nat)
    ensures x * y * z == x * (y * z)
  {
  }
}

/** Connection identifiers of the UDP protocol: an encrypted mix of issue time and client
    fingerprint, checked without keeping state. */
module ConnectionCookie {
  import opened Float64

  /** A block cipher on 64-bit blocks under a fixed key. */
  datatype Cipher = Cipher(encrypt: Bits64 -> Bits64, decrypt: Bits64 -> Bits64)

  ghost predicate IsPermutation(c: Cipher) {
    && (forall x: Bits64 :: c.decrypt(c.encrypt(x)) == x)
    && (forall y: Bits64 :: c.encrypt(c.decrypt(y)) == y)
  }

  datatype Error =
    | NotNormal(value: Bits64)
    | Expired(value: Bits64, min: int)
    | FromFuture(value: Bits64, max: int)

  datatype Result<+T> = Ok(value: T) | Err(error: Error)

  // ----- wrapping 64-bit arithmetic -----

  function ToI64(b: Bits64): int { if b < TWO63 then b else b - TWO64 }

  function FromI64(n: int): Bits64
    requires -TWO63 <= n < TWO63
  {
    if n >= 0 then n else n + TWO64
  }

  /** Two's complement wrap-around of a sum or a difference of two `i64`. */
  function WrapI64(n: int): (r: int)
    requires -TWO64 <= n < TWO64
    ensures -TWO63 <= r < TWO63
  {
    if n >= TWO63 then n - TWO64 else if n < -TWO63 then n + TWO64 else n
  }

  function Assemble(fingerprint: Bits64, issueAt: Bits64): Bits64 {
    FromI64(WrapI64(ToI64(issueAt) + ToI64(fingerprint)))
  }

  function Disassemble(fingerprint: Bits64, plain: Bits64): Bits64 {
    FromI64(WrapI64(ToI64(plain) - ToI64(fingerprint)))
  }

  /** Signed wrap-around is addition and subtraction modulo 2^64 on the patterns. */
  lemma WrappingIsModular(fingerprint: Bits64, x: Bits64)
    ensures Assemble(fingerprint, x) == (x + fingerprint) % 0x1_0000_0000_0000_0000
    ensures Disassemble(fingerprint, x) == (x - fingerprint) % 0x1_0000_0000_0000_0000
  {
  }

  /** For each fingerprint, assembling and disassembling undo each other. */
  lemma AssembleDisassemble(fingerprint: Bits64, x: Bits64)
    ensures Disassemble(fingerprint, Assemble(fingerprint, x)) == x
    ensures Assemble(fingerprint, Disassemble(fingerprint, x)) == x
  {
  }

  // ----- make and check -----

  function Make(c: Cipher, fingerprint: Bits64, issueAt: Bits64): Result<Bits64> {
    if !IsNormal(issueAt) then Err(NotNormal(issueAt)) else Ok(c.encrypt(Assemble(fingerprint, issueAt)))
  }

  /** Checks a cookie against a window given by the exact values of its ends. */
  function Check(c: Cipher, cookie: Bits64, fingerprint: Bits64, start: int, end: int): Result<Bits64>
    requires start <= end
  {
    var issueTime := Disassemble(fingerprint, c.decrypt(cookie));
    if !IsNormal(issueTime) then Err(NotNormal(issueTime))
    else if Value(issueTime) < start then Err(Expired(issueTime, start))
    else if Value(issueTime) > end then Err(FromFuture(issueTime, end))
    else Ok(issueTime)
  }

  /** A cookie recovers its issue time bit for bit, for its own fingerprint. */
  lemma {:induction false} CheckMade(c: Cipher, fingerprint: Bits64, issueAt: Bits64, start: int, end: int)
    requires IsPermutation(c) && start <= end && IsNormal(issueAt)
    ensures var r := Make(c, fingerprint, issueAt);
            r.Ok? && Check(c, r.value, fingerprint, start, end) ==
            if Value(issueAt) < start then Err(Expired(issueAt, start))
            else if Value(issueAt) > end then Err(FromFuture(issueAt, end))
            else Ok(issueAt)
  {
    AssembleDisassemble(fingerprint, issueAt);
  }

  /** Presented under another fingerprint, a cookie is judged by its issue time shifted by the difference of
      the fingerprints; a time that is not normal gets no cookie, and is refused as such when it comes up. */
  lemma {:induction false} CheckForeign(c: Cipher, f: Bits64, f': Bits64, t: Bits64, start: int, end: int)
    requires IsPermutation(c) && start <= end
    ensures !IsNormal(t) ==> Make(c, f, t) == Err(NotNormal(t))
    ensures IsNormal(t) ==>
              var r, x := Make(c, f, t), (t + f - f') % TWO64;
              r.Ok? && Check(c, r.value, f', start, end) ==
              if !IsNormal(x) then Err(NotNormal(x))
              else if Value(x) < start then Err(Expired(x, start))
              else if Value(x) > end then Err(FromFuture(x, end))
              else Ok(x)
  {
    ShiftedTime(f, f', t);
  }

  lemma {:induction false} ShiftedTime(f: Bits64, f': Bits64, t: Bits64)
    ensures Disassemble(f', Assemble(f, t)) == (t + f - f') % TWO64
  {
    WrappingIsModular(f, t);
    WrappingIsModular(f', Assemble(f, t));
    DropMod(t + f, f');
  }

  lemma DropMod(x: int, y: int)
    ensures (x % TWO64 - y) % TWO64 == (x - y) % TWO64
  {
  }

  /** Two cookies are equal if and only if fingerprint and issue time have the same sum modulo 2^64. So one
      client gets different cookies at different times, and different clients get different ones at the
      same time. */
  lemma {:induction false} CookiesEqualIff(c: Cipher, f: Bits64, t: Bits64, f': Bits64, t': Bits64)
    requires IsPermutation(c) && IsNormal(t) && IsNormal(t')
    ensures Make(c, f, t) == Make(c, f', t') <==> (f + t) % TWO64 == (f' + t') % TWO64
    ensures f == f' ==> (Make(c, f, t) == Make(c, f', t') <==> t == t')
    ensures t == t' ==> (Make(c, f, t) == Make(c, f', t') <==> f == f')
  {
    var x, y := Assemble(f, t), Assemble(f', t');
    assert c.decrypt(c.encrypt(x)) == x && c.decrypt(c.encrypt(y)) == y;
    WrappingIsModular(f, t);
    WrappingIsModular(f', t');
    if x == y {
      SumDetermines(f, t, f', t');
    }
  }

  lemma SumDetermines(f: Bits64, t: Bits64, f': Bits64, t': Bits64)
    requires (f + t) % TWO64 == (f' + t') % TWO64
    ensures f == f' <==> t == t'
  {
  }

  /** Neighbouring fingerprints share a cookie at neighbouring issue times. */
  lemma {:induction false} NeighboursCollide(c: Cipher, f: Bits64, t: Bits64)
    requires IsPermutation(c) && f + 1 < TWO64 && t > 0 && IsNormal(t) && IsNormal(t - 1)
    ensures Make(c, f, t) == Make(c, f + 1, t - 1)
  {
    CookiesEqualIff(c, f, t, f + 1, t - 1);
  }

  // ----- lifetime -----

  /** One second, in the units of `Value`. */
  function Second(): nat { Pow2(1074) }

  /** `CookieTimeValues::new`: the window around the clock, in exact arithmetic. */
  function WindowStart(now: int, lifetime: nat): int { now - lifetime - Second() }

  function WindowEnd(now: int): int { now + Second() }

  /** A cookie issued at `t` and presented by its address when the clock reads `now`: accepted, returning
      `t`, exactly from one second before `t` to `t + lifetime + 1`, and refused as expired after that. */
  lemma {:induction false} CookieLifetime(c: Cipher, fingerprint: Bits64, t: Bits64, now: int, lifetime: nat)
    requires IsPermutation(c) && IsNormal(t)
    ensures var cookie := Make(c, fingerprint, t);
            && cookie.Ok? && WindowStart(now, lifetime) <= WindowEnd(now)
            && var r := Check(c, cookie.value, fingerprint, WindowStart(now, lifetime), WindowEnd(now));
               && (r == Ok(t) <==> Value(t) - Second() <= now <= Value(t) + lifetime + Second())
               && (r == Err(Expired(t, WindowStart(now, lifetime))) <==> now > Value(t) + lifetime + Second())
               && (r == Err(FromFuture(t, WindowEnd(now))) <==> now < Value(t) - Second())
  {
    CheckMade(c, fingerprint, t, WindowStart(now, lifetime), WindowEnd(now));
  }

  lemma ScaledOrder(x: int, y: int, p: nat)
    requires p >= 1
    ensures x * p <= y * p <==> x <= y
  {
  }

  /** The lifetime on the clock, in whole seconds: a cookie issued at second `issued` is accepted from the
      second before to `lifetime` and one more seconds after, expired later, from the future earlier. */
  lemma {:induction false} LifetimeInSeconds(c: Cipher, fingerprint: Bits64, issued: nat, now: nat, lifetime: nat)
    requires IsPermutation(c) && 0 < issued < 2 * TWO52
    ensures var s, t := Pow2(1074), WholeBits(issued);
            && 0 <= t < TWO64
            && var cookie := Make(c, fingerprint, t);
            && var start, end := WindowStart(now * s, lifetime * s), WindowEnd(now * s);
            && cookie.Ok? && start <= end
            && var r := Check(c, cookie.value, fingerprint, start, end);
            && (r == Ok(t) <==> issued - 1 <= now <= issued + lifetime + 1)
            && (r == Err(Expired(t, start)) <==> now > issued + lifetime + 1)
            && (r == Err(FromFuture(t, end)) <==> now < issued - 1)
  {
    var s, t := Pow2(1074), WholeBits(issued);
    WholeValue(issued);
    CookieLifetime(c, fingerprint, t, now * s, lifetime * s);
    ScaledWindow(issued, now, lifetime, s);
  }

  lemma {:induction false} ScaledWindow(issued: nat, now: nat, lifetime: nat, s: nat)
    requires s >= 1
    ensures issued * s - s <= now * s <==> issued - 1 <= now
    ensures now * s <= issued * s + lifetime * s + s <==> now <= issued + lifetime + 1
  {
    ScaledOrder(issued - 1, now, s);
    ScaledOrder(now, issued + lifetime + 1, s);
    assert (issued - 1) * s == issued * s - s;
    assert (issued + lifetime + 1) * s == issued * s + lifetime * s + s;
  }

  // ----- selectivity -----

  /** The patterns accepted by a window of positive normal times are those between its ends. */
  lemma {:induction false} WindowIsBitRange(x: Bits64, start: Bits64, end: Bits64)
    requires !Negative(start) && !Negative(end) && IsNormal(start) && IsNormal(end) && start <= end
    ensures IsNormal(x) && Value(start) <= Value(x) <= Value(end) <==> start <= x <= end
  {
    if Negative(x) {
      NegativeValue(x);
      ScaleAtLeast(TWO52 + Mantissa(start), Pow2(Exponent(start) - 1));
    } else {
      BitOrderIsValueOrder(x, start);
      BitOrderIsValueOrder(end, x);
      if start <= x <= end {
        assert Exponent(start) <= Exponent(x) <= Exponent(end);
      }
    }
  }

  ghost predicate Accepts(c: Cipher, cookie: Bits64, fingerprint: Bits64, start: Bits64, end: Bits64)
    requires Value(start) <= Value(end)
  {
    Check(c, cookie, fingerprint, Value(start), Value(end)).Ok?
  }

  /** The `n` patterns from `first` on, wrapping around after 2^64 - 1. */
  ghost function Arc(first: Bits64, n: nat): set<Bits64> {
    if n == 0 then {} else Arc(first, n - 1) + {(first + n - 1) % TWO64}
  }

  lemma {:induction false} ArcMembers(first: Bits64, n: nat, x: Bits64)
    requires n <= TWO64
    ensures x in Arc(first, n) <==> (x - first) % TWO64 < n
    decreases n
  {
    if n > 0 {
      ArcMembers(first, n - 1, x);
      ArcLast(first, n, x);
    }
  }

  lemma ArcLast(first: Bits64, n: nat, x: Bits64)
    requires 0 < n <= TWO64
    ensures x == (first + n - 1) % TWO64 <==> (x - first) % TWO64 == n - 1
  {
  }

  lemma {:induction false} ArcSize(first: Bits64, n: nat)
    requires n <= TWO64
    ensures |Arc(first, n)| == n
    decreases n
  {
    if n > 0 {
      ArcSize(first, n - 1);
      ArcMembers(first, n - 1, (first + n - 1) % TWO64);
      ArcLast(first, n, (first + n - 1) % TWO64);
    }
  }

  lemma {:induction false} AcceptsOnArc(c: Cipher, cookie: Bits64, f: Bits64, start: Bits64, end: Bits64)
    requires !Negative(start) && !Negative(end) && IsNormal(start) && IsNormal(end) && start <= end
    requires Value(start) <= Value(end)
    ensures Accepts(c, cookie, f, start, end) <==> f in Arc((c.decrypt(cookie) - end) % TWO64, end - start + 1)
  {
    var plain := c.decrypt(cookie);
    AcceptsIsBitRange(c, cookie, f, start, end);
    ArcMembers((plain - end) % TWO64, end - start + 1, f);
    ArcShift(plain, f, start, end);
  }

  lemma {:induction false} AcceptsIsBitRange(c: Cipher, cookie: Bits64, f: Bits64, start: Bits64, end: Bits64)
    requires !Negative(start) && !Negative(end) && IsNormal(start) && IsNormal(end) && start <= end
    requires Value(start) <= Value(end)
    ensures Accepts(c, cookie, f, start, end) <==> start <= (c.decrypt(cookie) - f) % TWO64 <= end
  {
    WindowIsBitRange(Disassemble(f, c.decrypt(cookie)), start, end);
    WrappingIsModular(f, c.decrypt(cookie));
  }

  /** Selectivity: whatever the cookie and the window of positive normal times, the fingerprints it is
      accepted for are one arc modulo 2^64, of exactly bits(end) - bits(start) + 1 values. */
  lemma {:induction false} Selectivity(c: Cipher, cookie: Bits64, start: Bits64, end: Bits64)
    requires !Negative(start) && !Negative(end) && IsNormal(start) && IsNormal(end) && start <= end
    ensures Value(start) <= Value(end)
    ensures var first := (c.decrypt(cookie) - end) % TWO64;
            && (forall f: Bits64 :: Accepts(c, cookie, f, start, end) <==> f in Arc(first, end - start + 1))
            && |Arc(first, end - start + 1)| == end - start + 1
  {
    BitOrderIsValueOrder(end, start);
    ArcSize((c.decrypt(cookie) - end) % TWO64, end - start + 1);
    forall f: Bits64
      ensures Accepts(c, cookie, f, start, end) <==> f in Arc((c.decrypt(cookie) - end) % TWO64, end - start + 1)
    {
      AcceptsOnArc(c, cookie, f, start, end);
    }
  }

  lemma ArcShift(plain: Bits64, f: Bits64, start: Bits64, end: Bits64)
    requires start <= end
    ensures start <= (plain - f) % TWO64 <= end <==> (f - (plain - end) % TWO64) % TWO64 <= end - start
  {
  }
}

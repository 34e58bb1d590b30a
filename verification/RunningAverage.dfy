/** Averages of UDP processing times, in exact arithmetic: each recalculation moves the stored whole
    number towards the new sample by a fraction of their distance and rounds up. */
module RunningAverage {

  const U64_MAX: nat := 0xFFFF_FFFF_FFFF_FFFF

  /** Least integer at or above `a / n`. */
  function CeilDiv(a: int, n: int): (c: int)
    requires n > 0
    ensures n * c - n < a <= n * c
  {
    (a + n - 1) / n
  }

  /** `(previous + (sample - previous) / handled).ceil() as u64`. Division by zero gives an infinity or
      NaN, which the cast turns into the largest number or zero. */
  function Recalculate(previous: nat, sample: nat, handled: nat): nat {
    if handled == 0 then (if sample > previous then U64_MAX else 0)
    else
      var distance := CeilDiv(sample - previous, handled);
      CeilBounds(sample - previous, handled);
      previous + distance
  }

  lemma Cancel(n: int, a: int, b: int)
    requires n > 0 && n * a < n * b
    ensures a < b
  {
  }

  lemma Scaled(n: int, a: int)
    requires n > 0
    ensures a >= 0 ==> n * a >= a
    ensures a <= 0 ==> n * a <= a
    ensures n * (a + 1) == n * a + n && n * (a - 1) == n * a - n
  {
  }

  /** Rounding up a quotient keeps it between zero and the dividend. */
  lemma {:induction false} CeilBounds(x: int, n: int)
    requires n > 0
    ensures x >= 0 ==> 0 <= CeilDiv(x, n) <= x
    ensures x <= 0 ==> x <= CeilDiv(x, n) <= 0
  {
    var c := CeilDiv(x, n);
    Scaled(n, x);
    Scaled(n, 0);
    if x >= 0 {
      Cancel(n, -1, c);
      Cancel(n, c, x + 1);
    } else {
      Cancel(n, x - 1, c);
      Cancel(n, c, 1);
    }
  }

  /** The new average lies between the old one and the sample. */
  lemma {:induction false} MovesTowards(previous: nat, sample: nat, handled: nat)
    requires handled > 0
    ensures previous <= sample ==> previous <= Recalculate(previous, sample, handled) <= sample
    ensures sample <= previous ==> sample <= Recalculate(previous, sample, handled) <= previous
  {
    CeilBounds(sample - previous, handled);
  }

  /** The rounding: less than one unit, upwards, on the weighted sum. */
  lemma {:induction false} WeightedStep(previous: nat, sample: nat, handled: nat)
    requires handled > 0
    ensures var total := (handled - 1) * previous + sample;
            total <= handled * Recalculate(previous, sample, handled) <= total + handled - 1
  {
    var c := CeilDiv(sample - previous, handled);
    assert handled * (previous + c) == handled * previous + handled * c;
    assert (handled - 1) * previous == handled * previous - previous;
  }

  // ----- one recalculation per handled request -----

  /** The average after the samples, the counter rising by one before each. */
  function Average(xs: seq<nat>): nat {
    if xs == [] then 0 else Recalculate(Average(xs[..|xs| - 1]), xs[|xs| - 1], |xs|)
  }

  function Total(xs: seq<nat>): nat {
    if xs == [] then 0 else Total(xs[..|xs| - 1]) + xs[|xs| - 1]
  }

  /** At least the true mean of the n samples, and above it by at most (n - 1) / 2. */
  ghost predicate Close(xs: seq<nat>, average: nat) {
    Total(xs) <= |xs| * average && 2 * (|xs| * average - Total(xs)) <= |xs| * (|xs| - 1)
  }

  /** After n samples the stored average is at least the true mean and exceeds it by at most (n - 1) / 2. */
  lemma {:induction false} AverageError(xs: seq<nat>)
    ensures Close(xs, Average(xs))
  {
    var n := |xs|;
    if n > 0 {
      var front := xs[..n - 1];
      AverageError(front);
      WeightedStep(Average(front), xs[n - 1], n);
      Triangle(n);
      ErrorStep((n - 1) * Average(front), Total(front), xs[n - 1], n, n * Average(xs), (n - 1) * (n - 2), n * (n - 1));
    }
  }

  lemma Triangle(n: int)
    ensures n * (n - 1) == (n - 1) * (n - 2) + 2 * (n - 1)
  {
  }

  /** One more sample adds at most `n - 1` to the error. */
  lemma ErrorStep(weighted: int, total: int, x: int, n: int, weighted': int, bound: int, bound': int)
    requires total <= weighted && 2 * (weighted - total) <= bound && bound' == bound + 2 * (n - 1)
    requires weighted + x <= weighted' <= weighted + x + n - 1
    ensures total + x <= weighted' && 2 * (weighted' - (total + x)) <= bound'
  {
  }

  ghost predicate Between(xs: seq<nat>, average: nat) {
    (exists i :: 0 <= i < |xs| && xs[i] <= average) && (exists i :: 0 <= i < |xs| && average <= xs[i])
  }

  lemma BetweenMoves(xs: seq<nat>, front: seq<nat>, x: nat, previous: nat, average: nat)
    requires xs == front + [x] && Between(front, previous)
    requires previous <= average <= x || x <= average <= previous
    ensures Between(xs, average)
  {
    assert xs[|front|] == x;
    var i :| 0 <= i < |front| && front[i] <= previous;
    var j :| 0 <= j < |front| && previous <= front[j];
    assert xs[i] == front[i] && xs[j] == front[j];
  }

  /** The stored average lies between the smallest and the largest sample. */
  lemma {:induction false} AverageInRange(xs: seq<nat>)
    requires xs != []
    ensures Between(xs, Average(xs))
  {
    var n := |xs|;
    if n == 1 {
      assert xs[..0] == [];
      assert CeilDiv(xs[0], 1) == xs[0];
      assert Average(xs) == xs[0];
    } else {
      var front := xs[..n - 1];
      AverageInRange(front);
      MovesTowards(Average(front), xs[n - 1], n);
      BetweenMoves(xs, front, xs[n - 1], Average(front), Average(xs));
    }
  }

  /** The samples 0, 1, ..., n - 1. */
  function Staircase(n: nat): (xs: seq<nat>)
    ensures |xs| == n
  {
    if n == 0 then [] else Staircase(n - 1) + [n - 1]
  }

  /** The error bound is reached, for every number of samples. */
  lemma {:induction false} ErrorBoundIsReached(n: nat)
    requires n > 0
    ensures Average(Staircase(n)) == n - 1
    ensures 2 * (n * Average(Staircase(n)) - Total(Staircase(n))) == n * (n - 1)
  {
    var xs := Staircase(n);
    assert xs[..n - 1] == Staircase(n - 1);
    if n == 1 {
      assert CeilDiv(0, 1) == 0;
    } else {
      ErrorBoundIsReached(n - 1);
      assert CeilDiv(n - 1 - (n - 2), n) == 1;
      Triangle(n);
    }
  }

  // ----- any divisors -----

  /** The average after the samples when the counter reads `hs[k]` at sample `k`. */
  function AverageWith(hs: seq<nat>, xs: seq<nat>): nat
    requires |xs| <= |hs|
  {
    if xs == [] then 0 else Recalculate(AverageWith(hs, xs[..|xs| - 1]), xs[|xs| - 1], hs[|xs| - 1])
  }

  /** The error bound holds after every number of samples, whatever their values. */
  ghost predicate Accurate(hs: seq<nat>) {
    forall xs: seq<nat> :: |xs| <= |hs| ==> Close(xs, AverageWith(hs, xs))
  }

  /** The counter has risen by exactly one before each sample. */
  predicate InStep(hs: seq<nat>) { forall k :: 0 <= k < |hs| ==> hs[k] == k + 1 }

  lemma {:induction false} InStepAverage(hs: seq<nat>, xs: seq<nat>)
    requires InStep(hs) && |xs| <= |hs|
    ensures AverageWith(hs, xs) == Average(xs)
    decreases |xs|
  {
    if xs != [] {
      InStepAverage(hs, xs[..|xs| - 1]);
    }
  }

  function Zeros(k: nat): (xs: seq<nat>)
    ensures |xs| == k
  {
    if k == 0 then [] else Zeros(k - 1) + [0]
  }

  lemma {:induction false} ZerosAverage(hs: seq<nat>, k: nat)
    requires k <= |hs|
    ensures AverageWith(hs, Zeros(k)) == 0 && Total(Zeros(k)) == 0
    decreases k
  {
    if k > 0 {
      var xs := Zeros(k);
      assert xs[..k - 1] == Zeros(k - 1);
      ZerosAverage(hs, k - 1);
      ZeroStays(hs[k - 1]);
    }
  }

  lemma ZeroStays(d: nat)
    ensures Recalculate(0, 0, d) == 0
  {
    if d > 0 {
      CeilBounds(0, d);
    }
  }

  /** A sample that, after zeros, breaks the bound for `n` samples when divided by `d` instead of `n`. */
  function BadSample(d: nat, n: nat): nat {
    if d == 0 then n * U64_MAX + 1 else if d > n then d else d * (n * n + 1)
  }

  lemma CeilExact(d: int, q: int)
    requires d > 0
    ensures CeilDiv(d * q, d) == q
  {
    var c := CeilDiv(d * q, d);
    assert d * q < d * (c + 1) by {
      Scaled(d, c);
    }
    Cancel(d, q, c + 1);
    assert d * (c - 1) < d * q by {
      Scaled(d, c);
    }
    Cancel(d, c - 1, q);
  }

  /** Too large a divisor leaves the average below the mean, too small a one leaves it too far above. */
  lemma {:induction false} BadSampleBreaks(d: nat, n: nat)
    requires n > 0 && d != n
    ensures var x, avg := BadSample(d, n), Recalculate(0, BadSample(d, n), d);
            !(x <= n * avg && 2 * (n * avg - x) <= n * (n - 1))
  {
    if d > n {
      CeilExact(d, 1);
      assert Recalculate(0, d, d) == 1;
    } else if d > 0 {
      var q := n * n + 1;
      CeilExact(d, q);
      assert Recalculate(0, d * q, d) == q;
      TooFarAbove(d, n, q);
    }
  }

  lemma TooFarAbove(d: int, n: int, q: int)
    requires 0 < d < n && q == n * n + 1
    ensures 2 * (n * q - d * q) > n * (n - 1)
  {
    assert n * q - d * q == (n - d) * q;
    Scaled(q, n - d - 1);
    assert (n - d) * q == (n - d - 1) * q + q >= q;
    assert n * (n - 1) == n * n - n;
  }

  lemma {:induction false} OutOfStepFails(hs: seq<nat>, k: nat)
    requires k < |hs| && hs[k] != k + 1
    ensures !Accurate(hs)
  {
    var x := BadSample(hs[k], k + 1);
    var xs := Zeros(k) + [x];
    assert xs[..k] == Zeros(k);
    ZerosAverage(hs, k);
    BadSampleBreaks(hs[k], k + 1);
    assert AverageWith(hs, xs) == Recalculate(0, x, hs[k]) && Total(xs) == x;
    assert !Close(xs, AverageWith(hs, xs));
  }

  /** The error bound holds throughout, for all sample values, if and only if the counter is in step at
      every sample. */
  lemma {:induction false} AccurateIff(hs: seq<nat>)
    ensures Accurate(hs) <==> InStep(hs)
  {
    if InStep(hs) {
      forall xs: seq<nat> | |xs| <= |hs|
        ensures Close(xs, AverageWith(hs, xs))
      {
        InStepAverage(hs, xs);
        AverageError(xs);
      }
    } else {
      var k :| 0 <= k < |hs| && hs[k] != k + 1;
      OutOfStepFails(hs, k);
    }
  }

  // ----- the events of one kind of request, as they arrive -----

  /** A handled request raises the counter; only responses over IPv4 bring a sample. */
  datatype Event = Handled4 | Handled6 | Response4(sample: nat) | Response6(sample: nat)

  datatype Stats = Stats(handled4: nat, handled6: nat, average: nat)

  const ZERO := Stats(0, 0, 0)

  function OnEvent(s: Stats, e: Event): Stats {
    match e
    case Handled4 => s.(handled4 := s.handled4 + 1)
    case Handled6 => s.(handled6 := s.handled6 + 1)
    case Response4(x) => s.(average := Recalculate(s.average, x, s.handled4 + s.handled6))
    case Response6(_) => s
  }

  function OnEvents(s: Stats, es: seq<Event>): Stats {
    if es == [] then s else OnEvent(OnEvents(s, es[..|es| - 1]), es[|es| - 1])
  }

  /** Requests counted among the events, over both protocols. */
  function Handled(es: seq<Event>): nat {
    if es == [] then 0
    else Handled(es[..|es| - 1]) + (if es[|es| - 1].Handled4? || es[|es| - 1].Handled6? then 1 else 0)
  }

  function Samples(es: seq<Event>): seq<nat> {
    if es == [] then []
    else Samples(es[..|es| - 1]) + (if es[|es| - 1].Response4? then [es[|es| - 1].sample] else [])
  }

  /** The counter at each sample. */
  function Divisors(es: seq<Event>): (hs: seq<nat>)
    ensures |hs| == |Samples(es)|
  {
    if es == [] then []
    else Divisors(es[..|es| - 1]) + (if es[|es| - 1].Response4? then [Handled(es[..|es| - 1])] else [])
  }

  lemma {:induction false} DivisorsPrefix(hs: seq<nat>, more: seq<nat>, xs: seq<nat>)
    requires |xs| <= |hs|
    ensures AverageWith(hs + more, xs) == AverageWith(hs, xs)
    decreases |xs|
  {
    if xs != [] {
      DivisorsPrefix(hs, more, xs[..|xs| - 1]);
    }
  }

  lemma {:induction false} AverageStep(hs: seq<nat>, xs: seq<nat>, h: nat, x: nat)
    requires |hs| == |xs|
    ensures AverageWith(hs + [h], xs + [x]) == Recalculate(AverageWith(hs, xs), x, h)
  {
    DivisorsPrefix(hs, [h], xs);
    assert (xs + [x])[..|xs|] == xs;
  }

  lemma OnEventsNext(s: Stats, es: seq<Event>, e: Event)
    ensures OnEvents(s, es + [e]) == OnEvent(OnEvents(s, es), e)
  {
    assert (es + [e])[..|es|] == es;
  }

  lemma EventNext(es: seq<Event>, e: Event)
    ensures Handled(es + [e]) == Handled(es) + (if e.Handled4? || e.Handled6? then 1 else 0)
    ensures Samples(es + [e]) == Samples(es) + (if e.Response4? then [e.sample] else [])
    ensures Divisors(es + [e]) == Divisors(es) + (if e.Response4? then [Handled(es)] else [])
  {
    assert (es + [e])[..|es|] == es;
  }

  ghost predicate Tracks(es: seq<Event>, s: Stats) {
    s.handled4 + s.handled6 == Handled(es) && s.average == AverageWith(Divisors(es), Samples(es))
  }

  lemma {:induction false} TracksNext(es: seq<Event>, s: Stats, e: Event)
    requires Tracks(es, s)
    ensures Tracks(es + [e], OnEvent(s, e))
  {
    EventNext(es, e);
    if e.Response4? {
      AverageStep(Divisors(es), Samples(es), Handled(es), e.sample);
    } else {
      assert Divisors(es + [e]) == Divisors(es) && Samples(es + [e]) == Samples(es);
    }
  }

  /** A run of events maintains the average of its samples under its divisors. */
  lemma {:induction false} EventsAverage(es: seq<Event>)
    ensures Tracks(es, OnEvents(ZERO, es))
  {
    if es != [] {
      var front, e := es[..|es| - 1], es[|es| - 1];
      EventsAverage(front);
      TracksNext(front, OnEvents(ZERO, front), e);
      assert front + [e] == es;
    }
  }

  /** When requests and samples are in step, the stored average is close to the mean and in range. */
  lemma {:induction false} InStepEvents(es: seq<Event>)
    requires InStep(Divisors(es))
    ensures Close(Samples(es), OnEvents(ZERO, es).average)
    ensures Samples(es) != [] ==> Between(Samples(es), OnEvents(ZERO, es).average)
  {
    EventsAverage(es);
    InStepAverage(Divisors(es), Samples(es));
    AverageError(Samples(es));
    if Samples(es) != [] {
      AverageInRange(Samples(es));
    }
  }

  /** However requests and responses interleave, the average never passes the largest sample, provided
      some request was counted before the first sample. */
  lemma {:induction false} NeverAboveSamples(s: Stats, es: seq<Event>, hi: nat)
    requires s.handled4 + s.handled6 > 0 && s.average <= hi
    requires forall i :: 0 <= i < |es| && es[i].Response4? ==> es[i].sample <= hi
    ensures var r := OnEvents(s, es); r.average <= hi && r.handled4 + r.handled6 > 0
  {
    if es != [] {
      var front, e := es[..|es| - 1], es[|es| - 1];
      NeverAboveSamples(s, front, hi);
      if e.Response4? {
        var r := OnEvents(s, front);
        MovesTowards(r.average, e.sample, r.handled4 + r.handled6);
      }
    }
  }

  /** The events without the responses over IPv6. */
  function WithoutResponses6(es: seq<Event>): seq<Event> {
    if es == [] then []
    else WithoutResponses6(es[..|es| - 1]) + (if es[|es| - 1].Response6? then [] else [es[|es| - 1]])
  }

  /** Responses over IPv6 have no effect, wherever they stand in a run. */
  lemma {:induction false} Responses6Ignored(s: Stats, es: seq<Event>)
    ensures OnEvents(s, es) == OnEvents(s, WithoutResponses6(es))
  {
    if es != [] {
      var front, e := es[..|es| - 1], es[|es| - 1];
      Responses6Ignored(s, front);
      if e.Response6? {
        assert WithoutResponses6(es) == WithoutResponses6(front);
      } else {
        OnEventsNext(s, WithoutResponses6(front), e);
      }
    }
  }

  /** A response before any request is counted: the division by zero leaves the largest number, or zero for
      a sample of zero. */
  lemma {:induction false} ResponseBeforeRequests(x: nat)
    ensures OnEvents(ZERO, [Response4(x)]).average == if x > 0 then 0xFFFF_FFFF_FFFF_FFFF else 0
  {
    OnEventsNext(ZERO, [], Response4(x));
    assert [] + [Response4(x)] == [Response4(x)];
  }

  lemma ThreeEvents(s: Stats, a: Event, b: Event, c: Event)
    ensures OnEvents(s, [a, b, c]) == OnEvent(OnEvent(OnEvent(s, a), b), c)
  {
    assert [] + [a] == [a] && [a] + [b] == [a, b] && [a, b] + [c] == [a, b, c];
    OnEventsNext(s, [], a);
    OnEventsNext(s, [a], b);
    OnEventsNext(s, [a, b], c);
  }

  lemma FiveEvents(s: Stats, a: Event, b: Event, c: Event, d: Event, e: Event)
    ensures OnEvents(s, [a, b, c, d, e]) == OnEvent(OnEvent(OnEvent(OnEvent(OnEvent(s, a), b), c), d), e)
  {
    ThreeEvents(s, a, b, c);
    assert [a, b, c] + [d] == [a, b, c, d] && [a, b, c, d] + [e] == [a, b, c, d, e];
    OnEventsNext(s, [a, b, c], d);
    OnEventsNext(s, [a, b, c, d], e);
  }

  lemma SkewedNumbers()
    ensures Recalculate(0, 10, 1) == 10 && Recalculate(0, 10, 2) == 5 && Recalculate(10, 0, 3) == 7
  {
  }

  lemma TotalOfTwo(x: nat, y: nat)
    ensures Total([x, y]) == x + y
  {
    assert [x, y][..1] == [x] && [x][..0] == [];
    assert Total([x]) == x;
  }

  /** One IPv6 request before the first IPv4 one halves the first average. */
  lemma Ipv6RequestsSkewTheAverage()
    ensures OnEvents(ZERO, [Handled6, Handled4, Response4(10)]).average == 5
  {
    ThreeEvents(ZERO, Handled6, Handled4, Response4(10));
    SkewedNumbers();
  }

  /** One IPv6 request between two IPv4 ones: the samples 10 and 0 have mean 5, the average becomes 7. */
  lemma Ipv6RequestsSkewLaterAverages()
    ensures OnEvents(ZERO, [Handled4, Response4(10), Handled6, Handled4, Response4(0)]).average == 7
    ensures !Close([10, 0], 7)
  {
    FiveEvents(ZERO, Handled4, Response4(10), Handled6, Handled4, Response4(0));
    SkewedNumbers();
    TotalOfTwo(10, 0);
  }

  // ----- all kinds together -----

  datatype Kind = Connect | Announce | Scrape | Failure

  /** The statistics events: a handled request, or a response sent with the time it took. */
  datatype UdpEvent = Request(ipv6: bool, kind: Kind) | Response(ipv6: bool, kind: Kind, sample: nat)

  function Plain(e: UdpEvent): Event {
    match e
    case Request(ipv6, _) => if ipv6 then Handled6 else Handled4
    case Response(ipv6, _, sample) => if ipv6 then Response6(sample) else Response4(sample)
  }

  /** The events of one kind, in order. */
  function OfKind(es: seq<UdpEvent>, kind: Kind): seq<Event> {
    if es == [] then []
    else OfKind(es[..|es| - 1], kind) + (if es[|es| - 1].kind == kind then [Plain(es[|es| - 1])] else [])
  }

  lemma {:induction false} OfKindNext(es: seq<UdpEvent>, e: UdpEvent, kind: Kind)
    ensures OnEvents(ZERO, OfKind(es + [e], kind)) ==
            if e.kind == kind then OnEvent(OnEvents(ZERO, OfKind(es, kind)), Plain(e))
            else OnEvents(ZERO, OfKind(es, kind))
  {
    assert (es + [e])[..|es|] == es;
    var front := OfKind(es, kind);
    if e.kind == kind {
      assert (front + [Plain(e)])[..|front|] == front;
    } else {
      assert OfKind(es + [e], kind) == front;
    }
  }

  /** The requests of one kind over one protocol. */
  function Requests(es: seq<UdpEvent>, ipv6: bool, kind: Kind): nat {
    if es == [] then 0
    else Requests(es[..|es| - 1], ipv6, kind) + (if es[|es| - 1] == Request(ipv6, kind) then 1 else 0)
  }

  lemma {:induction false} RequestCounted(s: Stats, s': Stats, e: UdpEvent, kind: Kind)
    requires s' == if e.kind == kind then OnEvent(s, Plain(e)) else s
    ensures s'.handled4 == s.handled4 + if e == Request(false, kind) then 1 else 0
    ensures s'.handled6 == s.handled6 + if e == Request(true, kind) then 1 else 0
  {
  }

  lemma {:induction false} RequestsCounted(es: seq<UdpEvent>, kind: Kind)
    ensures var s := OnEvents(ZERO, OfKind(es, kind));
            s.handled4 == Requests(es, false, kind) && s.handled6 == Requests(es, true, kind)
  {
    if es != [] {
      var front, e := es[..|es| - 1], es[|es| - 1];
      RequestsCounted(front, kind);
      OfKindNext(front, e, kind);
      assert front + [e] == es;
      RequestCounted(OnEvents(ZERO, OfKind(front, kind)), OnEvents(ZERO, OfKind(es, kind)), e, kind);
    }
  }

  /** The counters and averages kept under the statistics lock. */
  class Metrics {
    var connections4: nat
    var connections6: nat
    var announces4: nat
    var announces6: nat
    var scrapes4: nat
    var scrapes6: nat
    var avgConnect: nat
    var avgAnnounce: nat
    var avgScrape: nat

    constructor ()
      ensures forall k :: Of(k) == ZERO
    {
      connections4, connections6, announces4, announces6, scrapes4, scrapes6 := 0, 0, 0, 0, 0, 0;
      avgConnect, avgAnnounce, avgScrape := 0, 0, 0;
    }

    /** The statistics of one kind of request; errors have no average. */
    function Of(kind: Kind): Stats
      reads this
    {
      match kind
      case Connect => Stats(connections4, connections6, avgConnect)
      case Announce => Stats(announces4, announces6, avgAnnounce)
      case Scrape => Stats(scrapes4, scrapes6, avgScrape)
      case Failure => ZERO
    }

    /** The event handler: a request raises the counter of its kind and protocol, an IPv4 response
        recalculates the average of its kind from both counters of that kind. */
    method Handle(e: UdpEvent)
      modifies this
      ensures forall k :: k != Failure ==> Of(k) == if e.kind == k then OnEvent(old(Of(k)), Plain(e)) else old(Of(k))
    {
      if e.Request? {
        match e.kind
        case Connect => if e.ipv6 { connections6 := connections6 + 1; } else { connections4 := connections4 + 1; }
        case Announce => if e.ipv6 { announces6 := announces6 + 1; } else { announces4 := announces4 + 1; }
        case Scrape => if e.ipv6 { scrapes6 := scrapes6 + 1; } else { scrapes4 := scrapes4 + 1; }
        case Failure =>
      } else if !e.ipv6 {
        match e.kind
        case Connect => avgConnect := Recalculate(avgConnect, e.sample, connections4 + connections6);
        case Announce => avgAnnounce := Recalculate(avgAnnounce, e.sample, announces4 + announces6);
        case Scrape => avgScrape := Recalculate(avgScrape, e.sample, scrapes4 + scrapes6);
        case Failure =>
      }
    }

    /** Handles events as they come off the channel, from the start of the tracker. Each counter is the
        number of its own requests, and each average is affected by its own kind alone. Wherever a kind's
        requests and samples are in step, its stored average is close to the mean of its samples and
        between the smallest and the largest. */
    method HandleAll(es: seq<UdpEvent>)
      requires forall k :: Of(k) == ZERO
      modifies this
      ensures connections4 == Requests(es, false, Connect) && connections6 == Requests(es, true, Connect)
      ensures announces4 == Requests(es, false, Announce) && announces6 == Requests(es, true, Announce)
      ensures scrapes4 == Requests(es, false, Scrape) && scrapes6 == Requests(es, true, Scrape)
      ensures avgConnect == OnEvents(ZERO, OfKind(es, Connect)).average
      ensures avgAnnounce == OnEvents(ZERO, OfKind(es, Announce)).average
      ensures avgScrape == OnEvents(ZERO, OfKind(es, Scrape)).average
      ensures forall k :: k != Failure && InStep(Divisors(OfKind(es, k))) ==>
                var xs := Samples(OfKind(es, k));
                Close(xs, Of(k).average) && (xs != [] ==> Between(xs, Of(k).average))
    {
      for i := 0 to |es|
        invariant forall k :: k != Failure ==> Of(k) == OnEvents(ZERO, OfKind(es[..i], k))
      {
        Handle(es[i]);
        assert es[..i + 1] == es[..i] + [es[i]];
        forall k | k != Failure
          ensures Of(k) == OnEvents(ZERO, OfKind(es[..i + 1], k))
        {
          OfKindNext(es[..i], es[i], k);
        }
      }
      assert es[..|es|] == es;
      assert Of(Connect) == OnEvents(ZERO, OfKind(es, Connect)) && Of(Announce) == OnEvents(ZERO, OfKind(es, Announce));
      assert Of(Scrape) == OnEvents(ZERO, OfKind(es, Scrape));
      RequestsCounted(es, Connect);
      RequestsCounted(es, Announce);
      RequestsCounted(es, Scrape);
      forall k | k != Failure && InStep(Divisors(OfKind(es, k)))
        ensures var xs := Samples(OfKind(es, k));
                Close(xs, Of(k).average) && (xs != [] ==> Between(xs, Of(k).average))
      {
        InStepEvents(OfKind(es, k));
      }
    }
  }
}

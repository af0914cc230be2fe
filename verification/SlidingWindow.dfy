/** Sliding-window multiplication of several exponents at once. */
module SlidingWindow {
  import opened Arithmetic
  import opened Shifts
  import Integers
  import opened Groups

  /** The scan over one exponent. The window just found is the low windowSize
      bits of exp, read as +expWindow or -expWindow at bit windowBegin. */
  datatype WindowSlider = WindowSlider(
    exp: nat, windowSize: nat, windowBegin: nat, expWindow: nat,
    fastNegate: bool, negateNext: bool, firstTime: bool, finished: bool)

  function GetBit(x: nat, n: nat): bool {
    (x / Two(n)) % 2 == 1
  }

  /** What lies above the current window. */
  function Rest(s: WindowSlider): nat {
    if s.firstTime then s.exp else Quotient(s.exp, s.windowSize)
  }

  /** floor(x / 2^n) */
  function Quotient(x: nat, n: nat): (q: nat)
    ensures q <= x
  {
    DivBelow(x, Two(n));
    x / Two(n)
  }

  /** The bit position Rest is weighed at. */
  function RestBegin(s: WindowSlider): nat {
    if s.firstTime then s.windowBegin else s.windowBegin + s.windowSize
  }

  function Digit(s: WindowSlider): int {
    if s.negateNext then 0 - s.expWindow else s.expWindow
  }

  /** What the current window and everything above it still stand for. */
  function Pending(s: WindowSlider): int {
    if s.finished then 0
    else Digit(s) * Two(s.windowBegin) + Rest(s) * Two(RestBegin(s))
  }

  lemma QuotientNext(x: nat, n: nat)
    ensures Quotient(x, n + 1) == Quotient(x, n) / 2
  {
    hide Two;
    var p := Two(n);
    TwoNext(n);
    DivParts(x, p);
    var q, r := x / p, x % p;
    assert p * q == (2 * p) * (q / 2) + p * (q % 2);
    DivUnique(x, 2 * p, q / 2, p * (q % 2) + r);
  }

  lemma QuotientZero(x: nat, n: nat)
    requires x < Two(n)
    ensures Quotient(x, n) == 0
  {
    DivUnique(x, Two(n), 0, x);
  }

  /** A magnitude fits in its words. */
  lemma WordsHold(x: nat)
    ensures x < Two(Integers.WordCount(x) * 32)
  {
    hide Two, Words.Pw;
    TwoPw(Integers.WordCount(x));
  }

  /** Bits from `from` on are clear up to n. */
  ghost predicate ClearTo(x: nat, from: nat, n: nat) {
    from <= n && Quotient(x, from) == Two(n - from) * Quotient(x, n)
  }

  lemma ClearBit(x: nat, from: nat, n: nat)
    requires !GetBit(x, n) && ClearTo(x, from, n)
    ensures ClearTo(x, from, n + 1)
  {
    hide Two;
    QuotientNext(x, n);
    TwoNext(n - from);
    var h := Quotient(x, n + 1);
    assert Quotient(x, n) == 2 * h;
    assert (2 * Two(n - from)) * h == Two(n - from) * (2 * h);
  }

  lemma SetBit(x: nat, from: nat, n: nat)
    requires GetBit(x, n) && ClearTo(x, from, n)
    ensures Quotient(x, n) > 0 && Quotient(x, from) > 0
  {
    hide Two;
    MulMonotone(Two(n - from), 1, Quotient(x, n));
  }

  /** Finds the next set bit above the current window, or none. */
  method FindNextWindow(s: WindowSlider) returns (s': WindowSlider)
    requires s.windowSize >= 1
    ensures s'.windowSize == s.windowSize && !s'.firstTime
    ensures !s.finished ==> (s'.finished <==> Rest(s) == 0)
    ensures !s.finished && !s'.finished ==> WindowFound(s, s')
  {
    var expLen := Integers.WordCount(s.exp) * 32;
    var from := if s.firstTime then 0 else s.windowSize;
    var skipCount := from;
    s' := s.(firstTime := false);
    StartOfScan(s, from);
    hide Two;
    hide ClearTo, Quotient;
    while !GetBit(s.exp, skipCount)
      invariant ClearTo(s.exp, from, skipCount)
      decreases expLen - skipCount
    {
      if skipCount >= expLen {
        NothingLeft(s.exp, from, skipCount);
        s' := s'.(finished := true);
        return;
      }
      ClearBit(s.exp, from, skipCount);
      skipCount := skipCount + 1;
    }
    SetBit(s.exp, from, skipCount);
    s' := TakeWindow(s, skipCount);
    WindowTaken(s, from, skipCount, s');
  }

  lemma StartOfScan(s: WindowSlider, from: nat)
    requires from == if s.firstTime then 0 else s.windowSize
    ensures Quotient(s.exp, from) == Rest(s) && ClearTo(s.exp, from, from)
  {
    assert Two(0) == 1;
    DivUnique(s.exp, 1, s.exp, 0);
  }

  lemma NothingLeft(x: nat, from: nat, n: nat)
    requires ClearTo(x, from, n) && n >= Integers.WordCount(x) * 32
    ensures Quotient(x, from) == 0
  {
    hide Two, Quotient;
    WordsHold(x);
    TwoMonotone(Integers.WordCount(x) * 32, n);
    QuotientZero(x, n);
  }

  /** The fields after a set bit was found at skipCount. */
  function TakeWindow(s: WindowSlider, skipCount: nat): WindowSlider {
    var exp := Quotient(s.exp, skipCount);
    var modulus := Two(s.windowSize);
    DivParts(exp, modulus);
    var low := exp % modulus;
    if s.fastNegate && GetBit(exp, s.windowSize) then
      s.(exp := exp + modulus, windowBegin := s.windowBegin + skipCount, expWindow := modulus - low,
         negateNext := true, firstTime := false)
    else
      s.(exp := exp, windowBegin := s.windowBegin + skipCount, expWindow := low,
         negateNext := false, firstTime := false)
  }

  /** A new window: odd digit, what was above the old window is now split into
      the digit and a smaller rest. */
  ghost predicate WindowFound(s: WindowSlider, s': WindowSlider) {
    && s'.expWindow % 2 == 1 && s'.expWindow < Two(s'.windowSize)
    && RestBegin(s) <= s'.windowBegin
    && Rest(s) == Two(s'.windowBegin - RestBegin(s)) * (Digit(s') + Two(s'.windowSize) * Rest(s'))
    && Rest(s') < Rest(s)
  }

  lemma WindowTaken(s: WindowSlider, from: nat, skipCount: nat, s': WindowSlider)
    requires s.windowSize >= 1 && from == if s.firstTime then 0 else s.windowSize
    requires GetBit(s.exp, skipCount) && s' == TakeWindow(s, skipCount)
    requires ClearTo(s.exp, from, skipCount) && Quotient(s.exp, from) == Rest(s)
    ensures WindowFound(s, s') && s'.windowSize == s.windowSize && !s'.firstTime && s'.finished == s.finished
  {
    hide Two, Quotient, GetBit;
    var e, w := Quotient(s.exp, skipCount), s.windowSize;
    OddQuotient(s.exp, skipCount);
    var high := Digits(e, w, s.fastNegate, s'.exp, s'.expWindow, s'.negateNext);
    SmallerRest(e, Two(w), Digit(s'), Quotient(s'.exp, w), high, Two(skipCount - from));
  }

  lemma OddQuotient(x: nat, n: nat)
    requires GetBit(x, n)
    ensures Quotient(x, n) % 2 == 1
  {
  }

  /** The digit and the new exponent make up the old one. */
  lemma Digits(e: nat, w: nat, fastNegate: bool, e': nat, window: nat, negate: bool) returns (high: int)
    requires w >= 1 && e % 2 == 1 && negate == (fastNegate && GetBit(e, w))
    requires e' == if negate then e + Two(w) else e
    requires window == if negate then Two(w) - e % Two(w) else e % Two(w)
    ensures window % 2 == 1 && 0 < window < Two(w)
    ensures high == Quotient(e, w) && Quotient(e', w) == (if negate then high + 1 else high)
    ensures negate ==> high % 2 == 1
    ensures e == (if negate then 0 - window else window) + Two(w) * Quotient(e', w)
  {
    hide Two;
    var m := Two(w);
    DivParts(e, m);
    var low := e % m;
    high := e / m;
    TwoNext(w - 1);
    OddRemainder(e, Two(w - 1), low, high);
    DivUnique(e + m, m, high + 1, low);
    Distribute(high, 1, m);
  }

  lemma OddRemainder(e: int, p: int, low: int, high: int)
    requires e % 2 == 1 && e == (2 * p) * high + low
    ensures low % 2 == 1
  {
    assert (2 * p) * high == 2 * (p * high);
  }

  lemma SmallerRest(e: int, m: int, digit: int, rest: int, high: int, f: int)
    requires 2 <= m && 0 < f && -m < digit < m && 0 <= high
    requires e == digit + m * rest && e > 0
    requires (rest == high && digit > 0) || (rest == high + 1 && high >= 1)
    ensures rest < f * e
  {
    MulMonotone(high, 2, m);
    MulMonotone(e, 1, f);
    Distribute(high, 1, m);
  }

  /** Finding a window neither loses nor adds anything. */
  lemma WindowConserves(s: WindowSlider, s': WindowSlider)
    requires WindowFound(s, s') && !s'.firstTime && !s'.finished
    ensures Rest(s) * Two(RestBegin(s)) == Pending(s')
  {
    hide Two, Quotient;
    var p, b, w := RestBegin(s), s'.windowBegin, s'.windowSize;
    var d, r := Digit(s'), Rest(s');
    hide Rest, Digit;
    TwoAdd(b - p, p);
    TwoAdd(w, b);
    assert w + b == RestBegin(s');
    ConserveProduct(Two(b - p), Two(p), Two(b), Two(w), d, r);
  }

  lemma ConserveProduct(x: int, p: int, b: int, w: int, d: int, r: int)
    requires b == x * p
    ensures (x * (d + w * r)) * p == d * b + r * (w * b)
  {
    assert (x * (d + w * r)) * p == (x * p) * (d + w * r);
    Distribute(d, w * r, b);
    assert (w * r) * b == r * (w * b);
  }

  /** Sum of (2j+1) * c[j] for j from `from`: what the odd-digit buckets hold. */
  function Weight(c: seq<int>, from: nat): int
    decreases |c| - from
  {
    if from >= |c| then 0 else (2 * from + 1) * c[from] + Weight(c, from + 1)
  }

  function Sum(c: seq<int>, from: nat): int
    decreases |c| - from
  {
    if from >= |c| then 0 else c[from] + Sum(c, from + 1)
  }

  function SumOfSums(c: seq<int>, from: nat): int
    decreases |c| - from
  {
    if from >= |c| then 0 else Sum(c, from) + SumOfSums(c, from + 1)
  }

  /** The suffix-sum recombination computes the weighted sum. */
  lemma {:induction false} WeightBySums(c: seq<int>, from: nat)
    ensures Weight(c, from) == 2 * SumOfSums(c, from + 1) + (2 * from + 1) * Sum(c, from)
    decreases |c| - from
  {
    if from < |c| {
      WeightBySums(c, from + 1);
      var s := Sum(c, from + 1);
      Distribute(c[from], s, 2 * from + 1);
      assert (2 * (from + 1) + 1) * s == (2 * from + 1) * s + 2 * s;
    } else {
      assert (2 * from + 1) * 0 == 0;
    }
  }

  lemma {:induction false} WeightUpdate(c: seq<int>, from: nat, j: nat, x: int)
    requires from <= j < |c|
    ensures Weight(c[j := c[j] + x], from) == Weight(c, from) + (2 * j + 1) * x
    decreases |c| - from
  {
    var c' := c[j := c[j] + x];
    if from == j {
      SameWeight(c, c', j + 1);
      Distribute(c[j], x, 2 * j + 1);
    } else {
      WeightUpdate(c, from + 1, j, x);
    }
  }

  lemma {:induction false} SameWeight(c: seq<int>, c': seq<int>, from: nat)
    requires |c| == |c'| && forall i :: from <= i < |c| ==> c[i] == c'[i]
    ensures Weight(c, from) == Weight(c', from)
    decreases |c| - from
  {
    if from < |c| { SameWeight(c, c', from + 1); }
  }

  lemma {:induction false} ZeroWeight(c: seq<int>, from: nat)
    requires forall i :: 0 <= i < |c| ==> c[i] == 0
    ensures Weight(c, from) == 0
    decreases |c| - from
  {
    if from < |c| {
      ZeroWeight(c, from + 1);
      assert (2 * from + 1) * 0 == 0;
    }
  }

  /** One exponent: its scan and its buckets, one for each odd digit. */
  datatype Lane<!T> = Lane(slider: WindowSlider, buckets: seq<T>)

  ghost predicate Multiples<T(!new)>(G: Group<T>, base: T, b: seq<T>, c: seq<int>) {
    |b| == |c| && forall j :: 0 <= j < |b| ==> b[j] == Times(G, c[j], base)
  }

  /** Buckets and pending windows together make up the exponent e, and no window
      lies below bit pos. */
  ghost predicate LaneOk<T(!new)>(G: Group<T>, base: T, lane: Lane<T>, c: seq<int>, e: int, pos: nat) {
    var s := lane.slider;
    && Multiples(G, base, lane.buckets, c)
    && s.windowSize >= 1 && !s.firstTime && |c| == Two(s.windowSize - 1)
    && Weight(c, 0) + Pending(s) == e
    && (!s.finished ==> s.windowBegin >= pos && s.expWindow % 2 == 1 && s.expWindow < Two(s.windowSize))
  }

  function LaneEnergy<T>(lane: Lane<T>): nat {
    if lane.slider.finished then 0 else 1 + Rest(lane.slider)
  }

  /** bucket += g or -g */
  method AddToBucket<T(!new)>(G: Group<T>, base: T, b: seq<T>, ghost c: seq<int>, j: nat, g: T, ghost p: int,
      negate: bool)
    returns (b': seq<T>, ghost c': seq<int>)
    requires IsGroup(G) && Multiples(G, base, b, c) && j < |b| && g == Times(G, p, base)
    ensures Multiples(G, base, b', c') && |c'| == |c|
    ensures Weight(c', 0) == Weight(c, 0) + (2 * j + 1) * (if negate then -p else p)
  {
    hide IsGroup, Times;
    if negate {
      TimesNegate(G, p, base);
      TimesAdd(G, c[j], -p, base);
      b' := b[j := G.add(b[j], G.inverse(g))];
      c' := c[j := c[j] + -p];
      WeightUpdate(c, 0, j, -p);
    } else {
      TimesAdd(G, c[j], p, base);
      b' := b[j := G.add(b[j], g)];
      c' := c[j := c[j] + p];
      WeightUpdate(c, 0, j, p);
    }
  }

  lemma BucketIndex(window: nat, w: nat)
    requires w >= 1 && window % 2 == 1 && window < Two(w)
    ensures window / 2 < Two(w - 1) && 2 * (window / 2) + 1 == window
  {
    TwoNext(w - 1);
  }

  /** What one exponent does when the doubling reaches bit pos. */
  method VisitLane<T(!new)>(G: Group<T>, base: T, lane: Lane<T>, ghost c: seq<int>, ghost e: int, g: T, pos: nat)
    returns (lane': Lane<T>, ghost c': seq<int>)
    requires IsGroup(G) && LaneOk(G, base, lane, c, e, pos) && g == Times(G, Two(pos), base)
    ensures LaneOk(G, base, lane', c', e, pos + 1)
    ensures lane' == lane || LaneEnergy(lane') < LaneEnergy(lane)
    ensures lane'.slider.windowSize == lane.slider.windowSize
  {
    hide IsGroup, Times, Two, Multiples, Rest, Weight;
    var s := lane.slider;
    lane', c' := lane, c;
    if !s.finished && pos == s.windowBegin {
      BucketIndex(s.expWindow, s.windowSize);
      SameLength(G, base, lane.buckets, c);
      var b;
      b, c' := AddToBucket(G, base, lane.buckets, c, s.expWindow / 2, g, Two(pos), s.negateNext);
      DigitProduct(s, pos);
      var s' := FindNextWindow(s);
      lane' := Lane(s', b);
      NextPending(s, s');
    }
  }

  lemma SameLength<T(!new)>(G: Group<T>, base: T, b: seq<T>, c: seq<int>)
    requires Multiples(G, base, b, c)
    ensures |b| == |c|
  {
  }

  lemma DigitProduct(s: WindowSlider, pos: nat)
    requires s.windowBegin == pos
    ensures s.expWindow * (if s.negateNext then 0 - Two(pos) else Two(pos)) == Digit(s) * Two(s.windowBegin)
  {
    hide Two;
    var p: int := Two(pos);
    assert s.expWindow * (-p) == -(s.expWindow * p) == (0 - s.expWindow) * p;
  }

  /** After a visit, Pending is what was above the window, and the next window
      starts higher. */
  lemma NextPending(s: WindowSlider, s': WindowSlider)
    requires !s.finished && !s.firstTime && !s'.firstTime && s'.windowSize == s.windowSize >= 1
    requires s'.finished <==> Rest(s) == 0
    requires !s'.finished ==> WindowFound(s, s')
    ensures Pending(s) == Digit(s) * Two(s.windowBegin) + Pending(s')
    ensures !s'.finished ==> s'.windowBegin >= s.windowBegin + 1 && Rest(s') < Rest(s)
  {
    hide Two, Rest, Digit;
    if s'.finished {
      assert 0 * Two(RestBegin(s)) == 0;
    } else {
      WindowConserves(s, s');
    }
  }

  /** The window size chosen from the length of the exponent when none is given. */
  function WindowSizeFor(exp: nat, given: nat): (w: nat)
    ensures w >= 1
  {
    if given != 0 then given
    else
      var expLen := Integers.BitCount(exp);
      if expLen <= 17 then 1 else if expLen <= 24 then 2 else if expLen <= 70 then 3
      else if expLen <= 197 then 4 else if expLen <= 539 then 5 else if expLen <= 1434 then 6 else 7
  }

  method NewLane<T(!new)>(G: Group<T>, base: T, exp: nat, windowSize: nat) returns (lane: Lane<T>, ghost c: seq<int>)
    requires IsGroup(G)
    ensures LaneOk(G, base, lane, c, exp, 0)
  {
    hide IsGroup, Two, Weight;
    var w := WindowSizeFor(exp, windowSize);
    var s := WindowSlider(exp, w, 0, 0, G.inversionIsFast, false, true, false);
    var s' := FindNextWindow(s);
    lane := Lane(s', seq(Two(w - 1), _ => G.identity));
    c := seq(Two(w - 1), _ => 0);
    ZeroWeight(c, 0);
    if !s'.finished {
      WindowConserves(s, s');
    }
    TimesTwoZero(exp);
  }

  lemma TimesTwoZero(x: int)
    ensures x * Two(0) == x && Two(0) == 1
  {
  }

  /** Suffix sums from the top bucket down turn the buckets into the result. */
  method Recombine<T(!new)>(G: Group<T>, base: T, buckets: seq<T>, ghost c: seq<int>) returns (r: T)
    requires IsGroup(G) && Multiples(G, base, buckets, c) && |buckets| >= 1
    ensures r == Times(G, Weight(c, 0), base)
  {
    hide IsGroup, Times, Weight;
    var b := buckets;
    r := b[|b| - 1];
    TopSums(c);
    WeightBySums(c, 0);
    if |b| > 1 {
      var j: nat := |b| - 2;
      while j >= 1
        invariant 0 <= j <= |b| - 2 && |b| == |c|
        invariant forall i :: 0 <= i <= j ==> b[i] == Times(G, c[i], base)
        invariant b[j + 1] == Times(G, Sum(c, j + 1), base)
        invariant r == Times(G, SumOfSums(c, j + 1), base)
      {
        TimesAdd(G, c[j], Sum(c, j + 1), base);
        TimesAdd(G, SumOfSums(c, j + 1), Sum(c, j), base);
        b := b[j := G.add(b[j], b[j + 1])];
        r := G.add(r, b[j]);
        j := j - 1;
      }
      TimesAdd(G, c[0], Sum(c, 1), base);
      b := b[0 := G.add(b[0], b[1])];
      TimesAdd(G, SumOfSums(c, 1), SumOfSums(c, 1), base);
      TimesAdd(G, 2 * SumOfSums(c, 1), Sum(c, 0), base);
      r := G.add(G.add(r, r), b[0]);
    }
  }

  lemma TopSums(c: seq<int>)
    requires |c| >= 1
    ensures Sum(c, |c| - 1) == c[|c| - 1] == SumOfSums(c, |c| - 1)
    ensures SumOfSums(c, |c|) == 0
  {
  }

  function Energy<T>(lanes: seq<Lane<T>>): nat {
    if lanes == [] then 0 else LaneEnergy(lanes[0]) + Energy(lanes[1..])
  }

  lemma {:induction false} EnergyUpdate<T>(lanes: seq<Lane<T>>, i: nat, l: Lane<T>)
    requires i < |lanes|
    ensures Energy(lanes[i := l]) == Energy(lanes) - LaneEnergy(lanes[i]) + LaneEnergy(l)
  {
    hide LaneEnergy;
    if i > 0 {
      EnergyUpdate(lanes[1..], i - 1, l);
      assert lanes[i := l][1..] == lanes[1..][i - 1 := l];
    }
  }

  /** How far bit pos is from the windows still waiting. */
  function Distance<T>(lanes: seq<Lane<T>>, pos: nat): nat {
    if lanes == [] then 0
    else
      var s := lanes[0].slider;
      (if s.finished || s.windowBegin <= pos then 0 else s.windowBegin - pos) + Distance(lanes[1..], pos)
  }

  lemma {:induction false} DistanceFalls<T>(lanes: seq<Lane<T>>, pos: nat)
    requires forall k :: 0 <= k < |lanes| ==> lanes[k].slider.finished || lanes[k].slider.windowBegin >= pos + 1
    ensures Distance(lanes, pos + 1) <= Distance(lanes, pos)
    ensures (exists k :: 0 <= k < |lanes| && !lanes[k].slider.finished)
        ==> Distance(lanes, pos + 1) < Distance(lanes, pos)
  {
    if lanes != [] {
      DistanceFalls(lanes[1..], pos);
      if k :| 0 <= k < |lanes| && !lanes[k].slider.finished {
        if k > 0 { assert lanes[k] == lanes[1..][k - 1]; }
      }
    }
  }

  ghost predicate AllOk<T(!new)>(G: Group<T>, base: T, lanes: seq<Lane<T>>, c: seq<seq<int>>, exps: seq<nat>,
      pos: nat)
  {
    |lanes| == |c| == |exps| && forall k :: 0 <= k < |lanes| ==> LaneOk(G, base, lanes[k], c[k], exps[k], pos)
  }

  ghost predicate Unfinished<T>(lanes: seq<Lane<T>>) {
    exists k :: 0 <= k < |lanes| && !lanes[k].slider.finished
  }

  /** One pass over the exponents at bit pos. */
  method VisitAll<T(!new)>(G: Group<T>, base: T, lanes: seq<Lane<T>>, ghost c: seq<seq<int>>, ghost exps: seq<nat>,
      g: T, pos: nat)
    returns (lanes': seq<Lane<T>>, ghost c': seq<seq<int>>, notDone: bool)
    requires IsGroup(G) && AllOk(G, base, lanes, c, exps, pos) && g == Times(G, Two(pos), base)
    ensures AllOk(G, base, lanes', c', exps, pos + 1)
    ensures notDone <==> Unfinished(lanes')
    ensures lanes' == lanes || Energy(lanes') < Energy(lanes)
  {
    hide IsGroup, Times, Two, LaneOk, LaneEnergy;
    lanes', c', notDone := lanes, c, false;
    for i := 0 to |lanes|
      invariant |lanes'| == |lanes| == |c'| == |exps|
      invariant forall k :: 0 <= k < i ==> LaneOk(G, base, lanes'[k], c'[k], exps[k], pos + 1)
      invariant forall k :: i <= k < |lanes| ==> lanes'[k] == lanes[k] && c'[k] == c[k]
      invariant notDone <==> exists k :: 0 <= k < i && !lanes'[k].slider.finished
      invariant lanes' == lanes || Energy(lanes') < Energy(lanes)
    {
      var lane;
      ghost var ci;
      lane, ci := VisitLane(G, base, lanes'[i], c'[i], exps[i], g, pos);
      EnergyUpdate(lanes', i, lane);
      assert lane == lanes'[i] ==> lanes'[i := lane] == lanes';
      lanes', c' := lanes'[i := lane], c'[i := ci];
      notDone := notDone || !lane.slider.finished;
    }
  }

  lemma AheadOf<T(!new)>(G: Group<T>, base: T, lanes: seq<Lane<T>>, c: seq<seq<int>>, exps: seq<nat>, pos: nat)
    requires AllOk(G, base, lanes, c, exps, pos)
    ensures forall k :: 0 <= k < |lanes| ==> lanes[k].slider.finished || lanes[k].slider.windowBegin >= pos
  {
    hide Weight, Two, Multiples;
    forall k | 0 <= k < |lanes|
      ensures lanes[k].slider.finished || lanes[k].slider.windowBegin >= pos
    {
      assert LaneOk(G, base, lanes[k], c[k], exps[k], pos);
    }
  }

  /** exps[i] * base for every i, in any group, whatever the window sizes. */
  method SimultaneousMultiply<T(!new)>(G: Group<T>, base: T, exps: seq<nat>, windowSizes: seq<nat>)
    returns (results: seq<T>)
    requires IsGroup(G) && |windowSizes| == |exps|
    ensures |results| == |exps|
    ensures forall i :: 0 <= i < |exps| ==> results[i] == Times(G, exps[i], base)
  {
    hide IsGroup, Times, Two, LaneOk;
    var lanes: seq<Lane<T>> := [];
    ghost var c: seq<seq<int>> := [];
    for i := 0 to |exps|
      invariant |lanes| == |c| == i
      invariant forall k :: 0 <= k < i ==> LaneOk(G, base, lanes[k], c[k], exps[k], 0)
    {
      var lane;
      ghost var ci;
      lane, ci := NewLane(G, base, exps[i], windowSizes[i]);
      lanes, c := lanes + [lane], c + [ci];
    }
    var pos: nat := 0;
    var g := base;
    var notDone := true;
    FirstPower(G, base);
    while notDone
      invariant AllOk(G, base, lanes, c, exps, pos)
      invariant g == Times(G, Two(pos), base)
      invariant !notDone ==> !Unfinished(lanes)
      decreases Energy(lanes), Distance(lanes, pos), notDone
    {
      ghost var lanes0 := lanes;
      lanes, c, notDone := VisitAll(G, base, lanes, c, exps, g, pos);
      AheadOf(G, base, lanes, c, exps, pos + 1);
      if notDone {
        DistanceFalls(lanes, pos);
        TimesAdd(G, Two(pos), Two(pos), base);
        TwoNext(pos);
        g := G.add(g, g);
        pos := pos + 1;
      } else {
        Relax(G, base, lanes, c, exps, pos);
      }
    }
    results := Results(G, base, lanes, c, exps, pos);
  }

  lemma FirstPower<T(!new)>(G: Group<T>, base: T)
    requires IsGroup(G)
    ensures base == Times(G, Two(0), base)
  {
    TimesOne(G, base);
  }

  lemma Relax<T(!new)>(G: Group<T>, base: T, lanes: seq<Lane<T>>, c: seq<seq<int>>, exps: seq<nat>, pos: nat)
    requires AllOk(G, base, lanes, c, exps, pos + 1)
    ensures AllOk(G, base, lanes, c, exps, pos)
  {
    hide Weight, Two, Multiples;
    forall k | 0 <= k < |lanes|
      ensures LaneOk(G, base, lanes[k], c[k], exps[k], pos)
    {
      assert LaneOk(G, base, lanes[k], c[k], exps[k], pos + 1);
    }
  }

  method Results<T(!new)>(G: Group<T>, base: T, lanes: seq<Lane<T>>, ghost c: seq<seq<int>>, exps: seq<nat>,
      ghost pos: nat)
    returns (results: seq<T>)
    requires IsGroup(G) && AllOk(G, base, lanes, c, exps, pos) && !Unfinished(lanes)
    ensures |results| == |exps|
    ensures forall i :: 0 <= i < |exps| ==> results[i] == Times(G, exps[i], base)
  {
    hide IsGroup, Times, Two, LaneOk;
    results := [];
    for i := 0 to |exps|
      invariant |results| == i
      invariant forall k :: 0 <= k < i ==> results[k] == Times(G, exps[k], base)
    {
      FinishedLane(G, base, lanes[i], c[i], exps[i], pos);
      var r := Recombine(G, base, lanes[i].buckets, c[i]);
      results := results + [r];
    }
  }

  lemma FinishedLane<T(!new)>(G: Group<T>, base: T, lane: Lane<T>, c: seq<int>, e: int, pos: nat)
    requires LaneOk(G, base, lane, c, e, pos) && lane.slider.finished
    ensures Multiples(G, base, lane.buckets, c) && |lane.buckets| >= 1 && Weight(c, 0) == e
  {
  }
}

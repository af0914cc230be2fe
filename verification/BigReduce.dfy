/** FastTrack's bignum: reduction by an estimated quotient, in place. */
module BigReduce {
  import opened Arithmetic
  import opened Words
  import opened LowLevel
  import opened Multiply
  import opened BigPasses

  /** num1[p..p+cnt] < num2[0..cnt] */
  method BigIsLess(cnt: nat, num1: array<word>, p: nat, num2: array<word>) returns (less: bool)
    requires p + cnt <= num1.Length && cnt <= num2.Length
    ensures less <==> V(num1[..], p, cnt) < V(num2[..], 0, cnt)
  {
    hide V, Sh;
    ghost var a, b := num1[..], num2[..];
    ghost var d: int := V(a, p, cnt) - V(b, 0, cnt);
    var n: nat := cnt;
    Empty(a, p);
    Empty(b, 0);
    while n > 0
      invariant n <= cnt
      invariant V(a, p, n) == V(b, 0, n) + d
    {
      n := n - 1;
      DiffersAt(a, p, b, 0, n);
      DiffersAt(b, 0, a, p, n);
      if num1[p + n] < num2[n] {
        return true;
      } else if num1[p + n] > num2[n] {
        return false;
      }
    }
    return false;
  }

  ghost function Product(x: int, y: int): int {
    x * y
  }

  lemma ProductParts(k: int, v: int, w: int)
    ensures Product(k, 0) == 0 && Product(k, v) == k * v
    ensures Product(k, v + w) == Product(k, v) + Product(k, w)
  {
    Distribute(v, w, k);
  }

  /** in1[i..i+cnt+1] -= k * in2; the running borrow stays a word. */
  method SubtractMultiple(cnt: nat, in1: array<word>, i: nat, in2: array<word>, k: word)
    requires i + cnt < in1.Length && cnt <= in2.Length && in1 != in2
    requires k * V(in2[..], 0, cnt) <= V(in1[..], i, cnt + 1)
    modifies in1
    ensures Frame(old(in1[..]), in1[..], i, cnt + 1)
    ensures V(in1[..], i, cnt + 1) == V(old(in1[..]), i, cnt + 1) - k * V(in2[..], 0, cnt)
  {
    hide V, Sh, Product;
    ghost var m0 := in1[..];
    ghost var b := in2[..];
    var l: word := 0;
    Empty(m0, i); Empty(b, 0); ShMono(0, 0, 0);
    ProductParts(k, V(b, 0, cnt), 0);
    for j := 0 to cnt
      invariant in2[..] == b
      invariant Frame(m0, in1[..], i, j)
      invariant V(in1[..], i, j) - Sh(l, j) == V(m0, i, j) - Product(k, V(b, 0, j))
    {
      ghost var m1 := in1[..];
      var y, l';
      y, l' := SubtractWord(in1[i + j], in2[j], k, l);
      MultipleStep(V(b, 0, j), b[j], k, y, m0[i + j], l, l', j);
      in1[i + j] := y;
      l := l';
      Grow(m1, in1[..], i, j);
      Top(m0, i, j);
      Top(b, 0, j);
    }
    TakeBorrow(cnt, in1, i, l, m0, Product(k, V(b, 0, cnt)));
  }

  /** The last borrow comes off the top word of the window. */
  method TakeBorrow(cnt: nat, in1: array<word>, i: nat, l: word, ghost m0: seq<word>, ghost p: int)
    requires i + cnt < in1.Length && Frame(m0, in1[..], i, cnt)
    requires V(in1[..], i, cnt) - Sh(l, cnt) == V(m0, i, cnt) - p && p <= V(m0, i, cnt + 1)
    modifies in1
    ensures Frame(m0, in1[..], i, cnt + 1) && V(in1[..], i, cnt + 1) == V(m0, i, cnt + 1) - p
  {
    hide V, Sh;
    ghost var m2 := in1[..];
    Top(m0, i, cnt);
    ShAdd(m0[i + cnt], l, cnt);
    HighStays(V(m2, i, cnt), m0[i + cnt] - l, cnt);
    in1[i + cnt] := (in1[i + cnt] - l) % W;
    Grow(m2, in1[..], i, cnt);
  }

  method SubtractWord(a: word, b: word, k: word, l: word) returns (y: word, l': word)
    ensures a - Product(k, b) - l == y - W * l'
  {
    MulWords(k, b);
    var x := (k as int) * b + l;
    WordParts(a, x);
    var high := x / W;
    if a < x % W {
      high := high + 1;
    }
    l' := high;
    y := (a - x) % W;
  }

  lemma WordParts(a: word, x: int)
    requires 0 <= x <= W * (W - 1)
    ensures 0 <= x / W < W && (a < x % W ==> x / W + 1 < W)
    ensures (a - x) % W == a - x + W * (if a < x % W then x / W + 1 else x / W)
  {
    var h, r := x / W, x % W;
    DivParts(x, W);
    var q := if a < r then h + 1 else h;
    DivUnique(a - x, W, 0 - q, a - x + W * q);
  }

  lemma MultipleStep(v: int, b: int, k: int, y: int, a: int, l: int, l': int, j: nat)
    requires a - Product(k, b) - l == y - W * l'
    ensures Sh(y, j) - Sh(l', j + 1) == Sh(a, j) - Product(k, Sh(b, j)) - Sh(l, j)
    ensures Product(k, v + Sh(b, j)) == Product(k, v) + Product(k, Sh(b, j))
  {
    hide Sh;
    ProductParts(k, v, Sh(b, j));
    ShMul(k, b, j);
    ShAdd(a, k * b, j);
    ShAdd(a - k * b, l, j);
    ShAdd(y, W * l', j);
    ShW(l', j);
    Distribute(v, Sh(b, j), k);
  }

  lemma RunParts(a: seq<word>, p: nat, n: nat, j: nat)
    requires p + n <= |a| && j < n
    ensures LowPart(V(a, p, n), j) == V(a, p, j)
    ensures HighPart(V(a, p, n), j) % W == a[p + j]
  {
    hide V, Sh, Pw, LowPart, HighPart;
    Split(a, p, j, n - j);
    PartsUnique(V(a, p, n), j, V(a, p, j), V(a, p + j, n - j));
    LowWord(a, p + j, n - j);
  }

  lemma LowWord(a: seq<word>, p: nat, n: nat)
    requires 0 < n && p + n <= |a|
    ensures V(a, p, n) % W == a[p]
  {
  }

  /** One word of the pass: the borrow that was taken first is forgotten when it
      turned a zero word into all ones. */
  method PassWord(a: word, b: word, l: word) returns (y: word, l': word, dropped: bool)
    requires l <= 1
    ensures dropped <==> l == 1 && a == 0
    ensures l' <= 1 && a - b - l == y - W * l' - if dropped then W else 0
    ensures l' == 1 <==> (a - l) % W < b
  {
    var t := (a - l) % W;
    l' := if t < b then 1 else 0;
    y := (t - b) % W;
    dropped := l == 1 && a == 0;
  }

  /** in1[i..i+cnt+1] -= in2, as the code does it. `lost` is what forgotten
      borrows leave too much: zero exactly when no word dropped one, and a
      function of the two numbers. */
  method CorrectionPass(cnt: nat, in1: array<word>, i: nat, in2: array<word>) returns (dropped: bool, ghost lost: int)
    requires i + cnt < in1.Length && cnt <= in2.Length && in1 != in2
    modifies in1
    ensures Frame(old(in1[..]), in1[..], i, cnt + 1)
    ensures dropped <==> !NoDrop(V(old(in1[..]), i, cnt + 1), V(in2[..], 0, cnt), cnt)
    ensures if dropped then 0 < lost < Pw(cnt + 1) else lost == 0
    ensures lost == Lost(V(old(in1[..]), i, cnt + 1), V(in2[..], 0, cnt), cnt)
    ensures V(in1[..], i, cnt + 1)
         == LowPart(V(old(in1[..]), i, cnt + 1) - V(in2[..], 0, cnt) + lost, cnt + 1)
    ensures V(in1[..], i, cnt + 1) == LowPart(V(old(in1[..]), i, cnt + 1) - V(in2[..], 0, cnt), cnt + 1)
        <==> NoDrop(V(old(in1[..]), i, cnt + 1), V(in2[..], 0, cnt), cnt)
  {
    hide V, Sh, Pw, LowPart, NoDrop, Lost, Borrow;
    ghost var m0 := in1[..];
    ghost var b := in2[..];
    var l: word := 0;
    dropped, lost := false, 0;
    NothingLost(V(m0, i, cnt + 1), V(b, 0, cnt));
    Empty(m0, i); Empty(b, 0); ShMono(0, 0, 0);
    for j := 0 to cnt
      invariant in2[..] == b
      invariant l <= 1 && Frame(m0, in1[..], i, j)
      invariant V(in1[..], i, j) - Sh(l, j) == V(m0, i, j) - V(b, 0, j) + lost
      invariant if dropped then 0 < lost < Pw(j + 1) else lost == 0
      invariant l == Borrow(V(m0, i, cnt + 1), V(b, 0, cnt), j) && lost == Lost(V(m0, i, cnt + 1), V(b, 0, cnt), j)
    {
      ghost var m1 := in1[..];
      var y, l', drop;
      y, l', drop := PassWord(in1[i + j], in2[j], l);
      PassSum(y, l', m0[i + j], b[j], l, drop, j);
      LostGrows(lost, j, drop);
      LostNext(m0, b, i, cnt, j, l, l', drop);
      lost := lost + if drop then Sh(1, j + 1) else 0;
      dropped := dropped || drop;
      in1[i + j] := y;
      l := l';
      Grow(m1, in1[..], i, j);
      Top(m0, i, j);
      Top(b, 0, j);
    }
    ghost var m2 := in1[..];
    Top(m0, i, cnt);
    in1[i + cnt] := (in1[i + cnt] - l) % W;
    Grow(m2, in1[..], i, cnt);
    TopWraps(V(m2, i, cnt), m0[i + cnt], l, cnt, V(m0, i, cnt + 1) - V(b, 0, cnt) + lost, V(in1[..], i, cnt + 1));
    LostShows(V(m0, i, cnt + 1) - V(b, 0, cnt), lost, cnt + 1);
    DropsLose(V(m0, i, cnt + 1), V(b, 0, cnt), cnt);
  }

  lemma NothingLost(x: int, m: int)
    ensures Borrow(x, m, 0) == 0 && Lost(x, m, 0) == 0
  {
  }

  lemma LostNext(m0: seq<word>, b: seq<word>, i: nat, cnt: nat, j: nat, l: word, l': word, drop: bool)
    requires i + cnt < |m0| && cnt <= |b| && j < cnt && l == Borrow(V(m0, i, cnt + 1), V(b, 0, cnt), j)
    requires l' <= 1 && (l' == 1 <==> (m0[i + j] - l) % W < b[j])
    requires drop <==> l == 1 && m0[i + j] == 0
    ensures l' == Borrow(V(m0, i, cnt + 1), V(b, 0, cnt), j + 1)
    ensures Lost(V(m0, i, cnt + 1), V(b, 0, cnt), j + 1)
         == Lost(V(m0, i, cnt + 1), V(b, 0, cnt), j) + if drop then Sh(1, j + 1) else 0
  {
    hide V, Sh, LowPart, HighPart;
    RunParts(m0, i, cnt + 1, j);
    RunParts(b, 0, cnt, j);
  }

  lemma LostShows(x: int, lost: int, n: nat)
    requires 0 <= lost < Pw(n)
    ensures LowPart(x + lost, n) == LowPart(x, n) <==> lost == 0
  {
    hide Sh, Pw, LowPart, HighPart;
    Parts(x, n);
    Parts(x + lost, n);
    var k := HighPart(x + lost, n) - HighPart(x, n);
    ShAdd(HighPart(x + lost, n), HighPart(x, n), n);
    PwOne(n);
    ShMono(0, 0, n);
    if k >= 1 { ShMono(1, k, n); }
    if k <= -1 { ShMono(k, -1, n); ShAdd(0, 1, n); }
  }

  lemma PassSum(y: int, l': int, a: int, b: int, l: int, drop: bool, j: nat)
    requires a - b - l == y - W * l' - if drop then W else 0
    ensures Sh(y, j) - Sh(l', j + 1) == Sh(a, j) - Sh(b, j) - Sh(l, j) + if drop then Sh(1, j + 1) else 0
  {
    hide Sh;
    var d := if drop then 1 else 0;
    ShAdd(a, b, j);
    ShAdd(a - b, l, j);
    ShAdd(y, W * (l' + d), j);
    ShW(l' + d, j);
    ShAdd(l', d, j + 1);
    ShMono(0, 0, j + 1);
  }

  lemma LostGrows(lost: int, j: nat, drop: bool)
    requires 0 <= lost < Pw(j + 1)
    ensures var lost' := lost + if drop then Sh(1, j + 1) else 0;
      lost <= lost' < Pw(j + 2) && (drop ==> lost' > 0)
  {
    hide Sh, Pw;
    PwOne(j + 1);
    PwShift(1, j + 1);
    ShMono(2, W, j + 1);
    ShAdd(1, 1, j + 1);
    PwWord();
  }

  lemma TopWraps(low: int, a: word, l: word, n: nat, x: int, v: int)
    requires 0 <= low < Pw(n) && x == low - Sh(l, n) + Sh(a, n)
    requires v == low + Sh((a - l) % W, n) && 0 <= v < Pw(n + 1)
    ensures v == LowPart(x, n + 1)
  {
    hide Sh, Pw, LowPart;
    var q := (a - l) / W;
    ShAdd(a, l, n);
    ShAdd((a - l) % W, W * q, n);
    ShW(q, n);
    PartsUnique(x, n + 1, v, q);
  }

  /** The quotient digit guessed from the top words. */
  function Guess(hi: word, lo: word, t: word): int {
    (hi * W + lo) / (t + 1)
  }

  /** The guess is a word and does not exceed the digit. */
  lemma GuessLow(a: seq<word>, p: nat, b: seq<word>, n: nat)
    requires 1 <= n && p + n + 1 <= |a| && n <= |b|
    requires V(a, p + 1, n) < V(b, 0, n)
    ensures 0 <= Guess(a[p + n], a[p + n - 1], b[n - 1]) < W
    ensures V(a, p, n + 1) - Guess(a[p + n], a[p + n - 1], b[n - 1]) * V(b, 0, n)
        == FirstRemainder(V(a, p, n + 1), V(b, 0, n), n) >= 0
    ensures b[n - 1] >= W / 2 ==> FirstRemainder(V(a, p, n + 1), V(b, 0, n), n) < 3 * V(b, 0, n)
  {
    hide V, Sh, Pw, HighPart;
    var lo, hi, t := a[p + n - 1], a[p + n], b[n - 1];
    var u := hi * W + lo;
    Split(a, p, n - 1, 2);
    V2(a, p + n - 1);
    PartsUnique(V(a, p, n + 1), n - 1, V(a, p, n - 1), u);
    Top(b, 0, n - 1);
    PartsUnique(V(b, 0, n), n - 1, V(b, 0, n - 1), t);
    TopWordAtMost(a, p + 1, b, n);
    DivParts(u, t + 1);
    var k := u / (t + 1);
    if k >= W { MulMonotone(t + 1, W, k); }
    if k < 0 { MulMonotone(t + 1, k, -1); }
    GuessBounds(V(a, p, n - 1), u, V(b, 0, n - 1), t, k, n - 1);
  }

  lemma TopWordAtMost(a: seq<word>, p: nat, b: seq<word>, n: nat)
    requires 1 <= n && p + n <= |a| && n <= |b| && V(a, p, n) < V(b, 0, n)
    ensures a[p + n - 1] <= b[n - 1]
  {
    hide V;
    DiffersAt(a, p, b, 0, n - 1);
  }

  lemma GuessBounds(alow: int, u: int, blow: int, t: int, k: int, n: nat)
    requires 0 <= alow < Pw(n) && 0 <= blow < Pw(n) && 0 <= t < W && 0 <= k < W
    requires k * (t + 1) <= u < k * (t + 1) + t + 1
    ensures alow + Sh(u, n) - k * (blow + Sh(t, n)) >= 0
    ensures t >= W / 2 ==> alow + Sh(u, n) - k * (blow + Sh(t, n)) < 3 * (blow + Sh(t, n))
  {
    hide Sh, Pw;
    Distribute(t, 1, k);
    var e := u - k * t;
    Distribute(blow, Sh(t, n), k);
    ShMul(k, t, n);
    ShAdd(u, k * t, n);
    ExcessBounds(alow, e, blow, t, k, Pw(n));
    ShIsMul(e, n);
    ShIsMul(t, n);
  }

  lemma ExcessBounds(alow: int, e: int, blow: int, t: int, k: int, p: int)
    requires 0 <= alow < p && 0 <= blow < p && 0 <= t && 0 <= k < W && k <= e <= k + t
    ensures 0 <= alow + e * p - k * blow
    ensures t >= W / 2 ==> alow + e * p - k * blow < 3 * (t * p)
  {
    MulMonotone(k, blow, p);
    MulMonotone(k, 0, blow);
    MulMonotone(p, k, e);
    if t >= W / 2 {
      MulMonotone(p, e + 1, 3 * t);
      Distribute(e, 1, p);
      assert (3 * t) * p == 3 * (t * p);
    }
  }

  /** Are there still multiples of in2 in the window? */
  method StillAbove(cnt: nat, in1: array<word>, i: nat, in2: array<word>) returns (more: bool)
    requires i + cnt < in1.Length && cnt <= in2.Length
    ensures more <==> V(in1[..], i, cnt + 1) >= V(in2[..], 0, cnt)
  {
    hide V, Sh, Pw;
    Top(in1[..], i, cnt);
    PwOne(cnt);
    ShMono(0, 0, cnt);
    if in1[cnt + i] != 0 {
      ShMono(1, in1[cnt + i], cnt);
      return true;
    }
    var less := BigIsLess(cnt, in1, i, in2);
    return !less;
  }

  /** One quotient digit: guess, subtract, correct. With a tame modulus the loop
      ends whatever is forgotten; with any other the model stops at the first
      pass that forgets a borrow. */
  method ReduceDigit(cnt: nat, in1: array<word>, i: nat, in2: array<word>) returns (done: bool, ghost passes: nat)
    requires 1 <= cnt && i + cnt < in1.Length && cnt <= in2.Length && in1 != in2
    requires V(in1[..], i + 1, cnt) < V(in2[..], 0, cnt)
    modifies in1
    ensures Frame(old(in1[..]), in1[..], i, cnt + 1)
    ensures var w, m := V(old(in1[..]), i, cnt + 1), V(in2[..], 0, cnt);
      DigitResult(w, m, cnt, V(in1[..], i, cnt + 1), done)
      && (in2[cnt - 1] >= W / 2 && CleanPasses(FirstRemainder(w, m, cnt), m, cnt) ==> passes <= 2)
  {
    hide V, Sh, Pw, NoDrop, FirstRemainder, DigitResult, Tame, CleanPasses;
    ghost var m0 := in1[..];
    ghost var w, m := V(m0, i, cnt + 1), V(in2[..], 0, cnt);
    ghost var r0 := FirstRemainder(w, m, cnt);
    GuessLow(m0, i, in2[..], cnt);
    var k: word := Guess(in1[cnt + i], in1[cnt + i - 1], in2[cnt - 1]);
    SubtractMultiple(cnt, in1, i, in2, k);
    passes := 0;
    ghost var lost: int := 0;
    PassesStart(m, r0, cnt);
    hide PassesSoFar;
    var tame := IsTame(cnt, in2);
    var more := StillAbove(cnt, in1, i, in2);
    while more
      invariant Frame(m0, in1[..], i, cnt + 1) && V(in2[..], 0, cnt) == m
      invariant PassesSoFar(r0, V(in1[..], i, cnt + 1), m, cnt, passes, lost)
      invariant lost == 0 || tame
      invariant more <==> V(in1[..], i, cnt + 1) >= m
      decreases if tame then Rank(V(in1[..], i, cnt + 1), m, cnt) else V(in1[..], i, cnt + 1)
    {
      ghost var r := V(in1[..], i, cnt + 1);
      ghost var l;
      var dropped;
      dropped, l := CorrectionPass(cnt, in1, i, in2);
      if dropped && !tame {
        Stopped(r0, r, m, cnt, passes, l, w, V(in1[..], i, cnt + 1));
        return false, passes + 1;
      }
      NextPass(r0, r, V(in1[..], i, cnt + 1), m, cnt, passes, lost, l, dropped);
      passes, lost := passes + 1, lost + l;
      more := StillAbove(cnt, in1, i, in2);
    }
    LastPass(V(in1[..], i, cnt + 1), m, cnt, passes, lost, r0, w);
    return true, passes;
  }

  /** What a digit leaves of the window w: the residue of w and what is forgotten,
      which is nothing exactly for clean passes. */
  ghost predicate DigitResult(w: int, m: int, n: nat, r: int, done: bool)
    requires 1 <= n
  {
    0 < m
    && (done <==> Tame(m, n) || CleanPasses(FirstRemainder(w, m, n), m, n))
    && (done ==> r == (w + Excess(FirstRemainder(w, m, n), m, n)) % m)
    && (done ==> (CleanPasses(FirstRemainder(w, m, n), m, n) <==> Excess(FirstRemainder(w, m, n), m, n) == 0))
  }

  method IsTame(cnt: nat, in2: array<word>) returns (tame: bool)
    requires 1 <= cnt <= in2.Length && 0 < V(in2[..], 0, cnt)
    ensures tame <==> Tame(V(in2[..], 0, cnt), cnt)
  {
    hide V, Pw, WordOf;
    LastWord(in2[..], cnt);
    tame := W / 2 <= in2[cnt - 1] < W - 1;
  }

  lemma LastWord(b: seq<word>, n: nat)
    requires 1 <= n <= |b|
    ensures WordOf(V(b, 0, n), n - 1) == b[n - 1]
  {
    hide V, HighPart;
    RunParts(b, 0, n, n - 1);
  }

  /** After some passes: the window r, and what was forgotten on the way. */
  ghost predicate PassesSoFar(r0: int, r: int, m: int, n: nat, passes: nat, lost: int)
    requires 1 <= n
  {
    0 < m && 0 <= lost && r + passes * m == r0 + lost
    && (lost == 0 ==> (CleanPasses(r0, m, n) <==> CleanPasses(r, m, n)))
    && (lost > 0 ==> !CleanPasses(r0, m, n))
    && Excess(r0, m, n) == lost + Excess(r, m, n)
  }

  lemma PassesStart(m: int, r0: int, n: nat)
    requires 1 <= n && 0 < m
    ensures PassesSoFar(r0, r0, m, n, 0, 0)
  {
    hide CleanPasses, Tame, Excess;
  }

  lemma NextPass(r0: int, r: int, r': int, m: int, n: nat, passes: nat, lost: int, l: int, dropped: bool)
    requires 1 <= n && PassesSoFar(r0, r, m, n, passes, lost)
    requires m <= r < Pw(n + 1) && r' == LowPart(r - m + l, n + 1)
    requires l == Lost(r, m, n) && if dropped then l > 0 else l == 0
    requires dropped <==> !NoDrop(r, m, n)
    requires dropped ==> Tame(m, n)
    ensures PassesSoFar(r0, r', m, n, passes + 1, lost + l) && r' == r - m + l
    ensures if Tame(m, n) then Rank(r', m, n) < Rank(r, m, n) else r' < r
  {
    hide NoDrop, Tame, Pw, LowPart, Lost, Rank;
    Distribute(passes, 1, m);
    if Tame(m, n) {
      RankFalls(r, m, n);
    } else {
      NoWrap(r - m, n + 1);
    }
  }

  lemma Stopped(r0: int, r: int, m: int, n: nat, passes: nat, l: int, w: int, r': int)
    requires 1 <= n && PassesSoFar(r0, r, m, n, passes, 0) && m <= r && !NoDrop(r, m, n) && !Tame(m, n)
    requires r0 == FirstRemainder(w, m, n)
    ensures DigitResult(w, m, n, r', false) && !CleanPasses(r0, m, n)
  {
    hide NoDrop, Tame, FirstRemainder, Excess;
  }

  lemma NoWrap(x: int, n: nat)
    requires 0 <= x
    ensures x < Pw(n) ==> LowPart(x, n) == x
  {
    hide Sh, Pw, LowPart;
    ShMono(0, 0, n);
    if x < Pw(n) { PartsUnique(x, n, x, 0); }
  }

  lemma LastPass(r: int, m: int, n: nat, passes: nat, lost: int, r0: int, w: int)
    requires 1 <= n && 0 <= r < m && PassesSoFar(r0, r, m, n, passes, lost) && r0 == FirstRemainder(w, m, n)
    requires lost == 0 || Tame(m, n)
    ensures DigitResult(w, m, n, r, true)
    ensures r0 < 3 * m && CleanPasses(r0, m, n) ==> passes <= 2
  {
    hide HighPart, Tame;
    HighNonNegative(m, n - 1);
    var k := HighPart(w, n - 1) / (HighPart(m, n - 1) + 1);
    Distribute(k, passes, m);
    assert w + lost == m * (k + passes) + r;
    DivUnique(w + lost, m, k + passes, r);
    if passes >= 3 { MulMonotone(m, 3, passes); }
  }

  /** out := in1 mod in2, for a dividend of 2*cnt words whose high half is below
      the modulus, where no borrow is forgotten; otherwise the residue of the
      dividend and all that is forgotten. */
  method BigMod(cnt: nat, out: array<word>, in1: array<word>, in2: array<word>) returns (done: bool)
    requires 1 <= cnt && 2 * cnt <= in1.Length && cnt <= in2.Length && cnt <= out.Length
    requires in1 != in2 && out != in1 && out != in2
    requires V(in1[..], cnt, cnt) < V(in2[..], 0, cnt)
    modifies in1, out
    ensures var x, m := V(old(in1[..]), 0, 2 * cnt), V(in2[..], 0, cnt);
      && (done <==> Tame(m, cnt) || Clean(x, m, cnt, cnt))
      && (done ==> V(out[..], 0, cnt) == Residue(x, m, cnt) && Frame(old(out[..]), out[..], 0, cnt))
      && (done ==> (Clean(x, m, cnt, cnt) <==> Forgotten(x, m, cnt, cnt) == 0))
      && (Clean(x, m, cnt, cnt) ==> V(out[..], 0, cnt) == x % m)
  {
    hide V, Sh, Pw, FirstRemainder, Residue, DigitResult, Tame;
    ghost var x, m := V(in1[..], 0, 2 * cnt), V(in2[..], 0, cnt);
    ghost var outs := out[..];
    var i: nat := cnt;
    ghost var lost: int := 0;
    hide Clean;
    DigitsStart(x, m, cnt);
    hide DigitsSoFar;
    while i > 0
      invariant i <= cnt && out[..] == outs && V(in2[..], 0, cnt) == m
      invariant V(in1[..], i, cnt) < m
      invariant DigitsSoFar(x, V(in1[..], 0, cnt + i), m, cnt, i, lost)
    {
      i := i - 1;
      ghost var m0 := in1[..];
      var ok, passes := ReduceDigit(cnt, in1, i, in2);
      lost := DigitDone(m0, in1[..], i, cnt, m, x, lost, ok);
      if !ok {
        return false;
      }
    }
    DigitsEnd(x, V(in1[..], 0, cnt), m, cnt, lost);
    CopyLow(cnt, out, in1);
    return true;
  }

  /** out[0..cnt] := in1[0..cnt] */
  method CopyLow(cnt: nat, out: array<word>, in1: array<word>)
    requires cnt <= in1.Length && cnt <= out.Length && in1 != out
    modifies out
    ensures Frame(old(out[..]), out[..], 0, cnt) && V(out[..], 0, cnt) == V(in1[..], 0, cnt)
  {
    hide V;
    ghost var outs := out[..];
    for j := 0 to cnt
      invariant forall k :: 0 <= k < j ==> out[k] == in1[k]
      invariant forall k :: j <= k < out.Length ==> out[k] == outs[k]
    {
      out[j] := in1[j];
    }
    assert out[..][0..0 + cnt] == in1[..][0..0 + cnt];
    MovedV(in1[..], 0, out[..], 0, cnt);
  }

  /** After the digits down to i: the number y, and what was forgotten. */
  ghost predicate DigitsSoFar(x: int, y: int, m: int, n: nat, i: nat, lost: int)
    requires 1 <= n
  {
    0 < m && 0 <= lost && Congruent(x + lost, y, m)
    && (lost == 0 ==> (Clean(x, m, n, n) <==> Clean(y, m, n, i)))
    && (lost > 0 ==> !Clean(x, m, n, n) && Tame(m, n))
    && Forgotten(x, m, n, n) == lost + Forgotten(y, m, n, i)
  }

  lemma DigitsStart(x: int, m: int, n: nat)
    requires 1 <= n && 0 < m
    ensures DigitsSoFar(x, x, m, n, n, 0)
  {
    hide Clean, Forgotten, Tame;
  }

  lemma DigitsEnd(x: int, y: int, m: int, n: nat, lost: int)
    requires 1 <= n && 0 <= y < m && DigitsSoFar(x, y, m, n, 0, lost)
    ensures y == Residue(x, m, n) && (Clean(x, m, n, n) <==> Forgotten(x, m, n, n) == 0)
    ensures Tame(m, n) || Clean(x, m, n, n)
    ensures Clean(x, m, n, n) ==> y == x % m
  {
    hide Tame;
    DivUnique(y, m, 0, y);
  }

  /** A digit of the reduction on the whole number. */
  lemma DigitDone(m0: seq<word>, m1: seq<word>, i: nat, cnt: nat, m: int, x: int, lost: int, ok: bool)
      returns (lost': int)
    requires 1 <= cnt && i + cnt < |m0| && 0 < m < Pw(cnt) && Frame(m0, m1, i, cnt + 1)
    requires DigitResult(V(m0, i, cnt + 1), m, cnt, V(m1, i, cnt + 1), ok)
    requires DigitsSoFar(x, V(m0, 0, cnt + i + 1), m, cnt, i + 1, lost)
    ensures ok ==> V(m1, i, cnt) < m && DigitsSoFar(x, V(m1, 0, cnt + i), m, cnt, i, lost')
    ensures !ok ==> !Tame(m, cnt) && !Clean(x, m, cnt, cnt)
  {
    hide *;
    var low, w := V(m0, 0, i), V(m0, i, cnt + 1);
    Split(m0, 0, i, cnt + 1);
    PartsUnique(V(m0, 0, cnt + i + 1), i, low, w);
    assert cnt + i + 1 <= |m0| && i + (cnt + 1) <= |m1| by { SameSize(m0, m1, i, cnt + 1); }
    lost' := NumberDigit(x, V(m0, 0, cnt + i + 1), m, cnt, i, lost, V(m1, i, cnt + 1), ok);
    if ok {
      ResultBelow(w, m, cnt, V(m1, i, cnt + 1));
      Split(m1, 0, i, cnt);
      Kept(m0, m1, i, cnt + 1, 0, i);
      TopGone(m1, i, cnt, m);
    }
  }

  lemma SameSize(m0: seq<word>, m1: seq<word>, p: nat, n: nat)
    requires Frame(m0, m1, p, n)
    ensures |m1| == |m0|
  {
  }

  lemma ResultBelow(w: int, m: int, n: nat, r: int)
    requires 1 <= n && DigitResult(w, m, n, r, true)
    ensures 0 <= r < m
  {
    hide FirstRemainder, CleanPasses, Excess, Tame;
  }

  lemma NumberDigit(x: int, y: int, m: int, n: nat, i: nat, lost: int, r: int, ok: bool) returns (lost': int)
    requires 1 <= n && DigitsSoFar(x, y, m, n, i + 1, lost) && DigitResult(HighPart(y, i), m, n, r, ok)
    ensures ok ==> DigitsSoFar(x, LowPart(y, i) + Sh(r, i), m, n, i, lost')
    ensures !ok ==> !Tame(m, n) && !Clean(x, m, n, n)
  {
    hide Sh, Pw, LowPart, HighPart, FirstRemainder, CleanPasses, Excess, Tame, Clean, Forgotten, Congruent, NextDigits;
    var w := HighPart(y, i);
    var e := Excess(FirstRemainder(w, m, n), m, n);
    OneDigit(y, m, n, i);
    lost' := lost + Sh(e, i);
    ShMono(0, 0, i);
    if e > 0 { ShMono(0, e, i); }
    if ok {
      assert LowPart(y, i) + Sh(r, i) == NextDigits(y, e, m, i) by { NextIs(y, e, m, i, r); }
      DigitResidue(x, y, m, i, lost, e);
    }
  }

  lemma NextIs(y: int, e: int, m: int, i: nat, r: int)
    requires 0 < m && r == (HighPart(y, i) + e) % m
    ensures LowPart(y, i) + Sh(r, i) == NextDigits(y, e, m, i)
  {
    hide Sh, LowPart, HighPart;
  }

  lemma DigitResidue(x: int, y: int, m: int, i: nat, lost: int, e: int)
    requires 0 < m && Congruent(x + lost, y, m)
    ensures Congruent(x + (lost + Sh(e, i)), NextDigits(y, e, m, i), m)
  {
    hide Sh, Pw, LowPart, HighPart, Congruent;
    var w := HighPart(y, i);
    Parts(y, i);
    ShAdd(w, e, i);
    SameResidueShift(LowPart(y, i), w + e, m, i);
    var j := CongruentWitness(x + lost, y, m);
    CongruentBy(x + (lost + Sh(e, i)), y + Sh(e, i), m, j);
    Symmetric(NextDigits(y, e, m, i), y + Sh(e, i), m);
    Transitive(x + (lost + Sh(e, i)), y + Sh(e, i), NextDigits(y, e, m, i), m);
  }

  lemma OneDigit(x: int, m: int, n: nat, i: nat)
    requires 1 <= n && 0 < m
    ensures var r := FirstRemainder(HighPart(x, i), m, n);
      var e := Excess(r, m, n);
      && Forgotten(x, m, n, i + 1) == Sh(e, i) + Forgotten(NextDigits(x, e, m, i), m, n, i)
      && (e == 0 ==> (Clean(x, m, n, i + 1) <==> CleanPasses(r, m, n) && Clean(NextDigits(x, e, m, i), m, n, i)))
      && (!CleanPasses(r, m, n) ==> !Clean(x, m, n, i + 1))
  {
    hide Sh, LowPart, HighPart, FirstRemainder, CleanPasses, Excess;
  }

  lemma TopGone(m1: seq<word>, i: nat, cnt: nat, m: int)
    requires i + cnt < |m1| && V(m1, i, cnt + 1) < m < Pw(cnt)
    ensures V(m1, i, cnt) == V(m1, i, cnt + 1)
  {
    hide V, Sh, Pw;
    Top(m1, i, cnt);
    PwOne(cnt);
    ShMono(0, 0, cnt);
    if m1[i + cnt] > 0 { ShMono(1, m1[i + cnt], cnt); }
  }

  lemma SameResidueShift(low: int, w: int, m: int, i: nat)
    requires 0 < m
    ensures Congruent(low + Sh(w % m, i), low + Sh(w, i), m)
  {
    hide Sh, Congruent;
    DivParts(w, m);
    var q := w / m;
    ShAdd(m * q, w % m, i);
    ShMul(m, q, i);
    CongruentBy(low + Sh(w, i), low + Sh(w % m, i), m, Sh(q, i));
    Symmetric(low + Sh(w, i), low + Sh(w % m, i), m);
  }

  lemma PassesFirst(r: int, m: int, n: nat)
    requires 0 < m <= r
    ensures CleanPasses(r, m, n) ==> NoDrop(r, m, n)
  {
    hide NoDrop;
  }
}

/** The almost-inverse algorithm: A^-1 * 2^k modulo an odd M. */
module AlmostInversion {
  import opened Arithmetic
  import opened Words
  import opened LowLevel
  import opened Shifts

  /** Where the four numbers lie now, and how many words of them are in use. */
  datatype State = State(b: nat, c: nat, f: nat, g: nat, bcLen: nat, fgLen: nat, k: nat, s: nat)

  /** Witnesses: the cofactors of both congruences, and A as a combination. */
  datatype Witness = Witness(x: int, y: int, p: int, q: int)

  function Sigma(s: nat): int {
    if s % 2 == 0 then 1 else -1
  }

  /** What every iteration keeps about the numbers. */
  ghost predicate Numbers(b: int, c: int, f: int, g: int, k: nat, s: nat, A: int, M: int, w: Witness) {
    && b >= 1 && c >= 0 && f >= 0 && g >= 1 && g % 2 == 1
    && (g > 1 || (M == 1 && s == 0 && f <= A))
    && b * g + c * f == M
    && A * b == Sigma(s) * (f * Two(k)) + M * w.x
    && A * c == -Sigma(s) * (g * Two(k)) + M * w.y
    && A == w.p * f + w.q * g
  }

  /** f halved and c doubled i times. */
  lemma NumbersShift(b: int, c: int, f: int, g: int, k: nat, s: nat, A: int, M: int, w: Witness, i: nat, f': int)
    returns (w': Witness)
    requires Numbers(b, c, f, g, k, s, A, M, w) && f == Two(i) * f'
    ensures Numbers(b, c * Two(i), f', g, k + i, s, A, M, w')
  {
    hide Two, Sigma;
    var t := Two(i);
    TwoAdd(k, i);
    w' := Witness(w.x, w.y * t, w.p * t, w.q);
    assert f' >= 0 by { if f' < 0 { MulMonotone(t, f', -1); } }
    MulMonotone(t, 0, c);
    assert (c * t) * f' == c * (t * f');
    assert f * Two(k) == f' * (Two(k) * t) by { assert (t * f') * Two(k) == f' * (Two(k) * t); }
    ShiftSecond(A, c, t, Sigma(s), g, Two(k), M, w.y);
    assert w.p * (t * f') == (w.p * t) * f';
  }

  lemma ShiftSecond(A: int, c: int, t: int, sg: int, g: int, p: int, M: int, y: int)
    requires A * c == -sg * (g * p) + M * y
    ensures A * (c * t) == -sg * (g * (p * t)) + M * (y * t)
  {
    assert A * (c * t) == (A * c) * t;
    Distribute(-sg * (g * p), M * y, t);
    assert (-sg * (g * p)) * t == -sg * ((g * p) * t) == -sg * (g * (p * t));
    assert (M * y) * t == M * (y * t);
  }

  lemma NumbersSwap(b: int, c: int, f: int, g: int, k: nat, s: nat, A: int, M: int, w: Witness) returns (w': Witness)
    requires Numbers(b, c, f, g, k, s, A, M, w) && f % 2 == 1 && f > 1
    ensures Swapped(c, b, g, f, k, s + 1, A, M, w')
  {
    hide Two;
    w' := Witness(w.y, w.x, w.q, w.p);
  }

  /** Between the swap and the addition b may be zero; c is not, then. */
  ghost predicate Swapped(b: int, c: int, f: int, g: int, k: nat, s: nat, A: int, M: int, w: Witness) {
    && b >= 0 && c >= 0 && b + c >= 1 && f >= 0 && g >= 1 && g % 2 == 1
    && (g > 1 || (M == 1 && s == 0 && f <= A))
    && b * g + c * f == M
    && A * b == Sigma(s) * (f * Two(k)) + M * w.x
    && A * c == -Sigma(s) * (g * Two(k)) + M * w.y
    && A == w.p * f + w.q * g
  }

  lemma NumbersSubtract(b: int, c: int, f: int, g: int, k: nat, s: nat, A: int, M: int, w: Witness)
    returns (w': Witness)
    requires Swapped(b, c, f, g, k, s, A, M, w) && f >= g
    ensures Numbers(b + c, c, f - g, g, k, s, A, M, w')
  {
    hide Two, Sigma;
    w' := Witness(w.x + w.y, w.y, w.p, w.p + w.q);
    Distribute(b, c, g);
    Distribute(f, g, c);
    Distribute(b, c, A);
    Distribute(f, g, Two(k));
    Distribute(f * Two(k), g * Two(k), Sigma(s));
    Distribute(w.x, w.y, M);
    Distribute(f, g, w.p);
    Distribute(w.p, w.q, g);
  }

  /** b and c stay below the modulus while f and g are positive. */
  lemma SizeBounds(b: int, c: int, f: int, g: int, M: int)
    requires b >= 0 && c >= 0 && f >= 1 && g >= 1 && b * g + c * f == M
    ensures b + c <= M && c <= M && b <= M && c * f <= M
    ensures g > 1 && b >= 1 ==> b < M
  {
    MulMonotone(b, 1, g);
    MulMonotone(c, 1, f);
    if g > 1 { MulMonotone(b, 2, g); }
  }

  /** The runs b, c and f, g are two pairs of N-word blocks in T[4N]. */
  ghost predicate Layout(st: State, T: nat, N: nat) {
    && ((st.b == T && st.c == T + N) || (st.b == T + N && st.c == T))
    && ((st.f == T + 2 * N && st.g == T + 3 * N) || (st.f == T + 3 * N && st.g == T + 2 * N))
    && 2 <= st.bcLen <= N && st.bcLen % 2 == 0 && 2 <= st.fgLen <= N && st.fgLen % 2 == 0 && N % 2 == 0
  }

  /** Every even number of words that holds M holds A. */
  ghost predicate NoLonger(A: int, M: int) {
    forall n: nat :: n % 2 == 0 && M < Pw(n) ==> A < Pw(n)
  }

  lemma BelowNoLonger(A: int, M: int)
    requires A < M
    ensures NoLonger(A, M)
  {
    hide Pw;
  }

  /** Beyond the used words, b and c are zero. */
  ghost predicate Padded(m: seq<word>, p: nat, len: nat, N: nat)
    requires len <= N && p + N <= |m|
  {
    forall i :: p + len <= i < p + N ==> m[i] == 0
  }

  ghost predicate Shape(m: seq<word>, st: State, T: nat, N: nat) {
    && Layout(st, T, N) && T + 4 * N <= |m|
    && Padded(m, st.b, st.bcLen, N) && Padded(m, st.c, st.bcLen, N)
  }

  ghost function B(m: seq<word>, st: State): int
    requires st.b + st.bcLen <= |m|
  {
    V(m, st.b, st.bcLen)
  }

  ghost function C(m: seq<word>, st: State): int
    requires st.c + st.bcLen <= |m|
  {
    V(m, st.c, st.bcLen)
  }

  ghost function F(m: seq<word>, st: State): int
    requires st.f + st.fgLen <= |m|
  {
    V(m, st.f, st.fgLen)
  }

  ghost function G(m: seq<word>, st: State): int
    requires st.g + st.fgLen <= |m|
  {
    V(m, st.g, st.fgLen)
  }

  /** The loop invariant of AlmostInverse. */
  ghost predicate Inv(m: seq<word>, st: State, T: nat, N: nat, A: int, M: int, w: Witness) {
    && Shape(m, st, T, N)
    && Numbers(B(m, st), C(m, st), F(m, st), G(m, st), st.k, st.s, A, M, w)
    && M < Pw(N)
  }

  /** Using more words of a padded run changes nothing. */
  lemma Longer(m: seq<word>, p: nat, len: nat, len': nat, N: nat)
    requires len <= len' <= N && p + N <= |m| && Padded(m, p, len, N)
    ensures V(m, p, len') == V(m, p, len) && Padded(m, p, len', N)
  {
    hide V, Sh;
    Split(m, p, len, len' - len);
    ZeroV(m, p + len, len' - len);
    ShMono(0, 0, len);
  }

  /** A run with its top word set is at least that power of W. */
  lemma TopSet(m: seq<word>, p: nat, len: nat)
    requires 0 < len && p + len <= |m| && m[p + len - 1] != 0
    ensures V(m, p, len) >= Pw(len - 1)
  {
    hide V, Sh, Pw;
    Top(m, p, len - 1);
    PwOne(len - 1);
    ShMono(1, m[p + len - 1], len - 1);
  }

  /** A number of more than len words, below W^N, leaves room for a pair. */
  lemma RoomForPair(len: nat, N: nat, M: int)
    requires len % 2 == 0 && N % 2 == 0 && Pw(len) <= M < Pw(N)
    ensures len + 2 <= N
  {
    hide Pw;
    if len >= N { PwGrows(N, len); }
  }

  method EvenWordCount(mem: array<word>, X: nat, N: nat) returns (n: nat)
    requires N % 2 == 0 && X + N <= mem.Length
    ensures n <= N && n % 2 == 0
    ensures V(mem[..], X, n) == V(mem[..], X, N)
    ensures n > 0 ==> mem[X + n - 2] != 0 || mem[X + n - 1] != 0
    ensures forall i :: X + n <= i < X + N ==> mem[i] == 0
  {
    hide V;
    n := N;
    while n > 0 && mem[X + n - 2] == 0 && mem[X + n - 1] == 0
      invariant n <= N && n % 2 == 0
      invariant forall i :: X + n <= i < X + N ==> mem[i] == 0
    {
      n := n - 2;
    }
    assert Padded(mem[..], X, n, N);
    Longer(mem[..], X, n, N, N);
  }

  /** One more pair of words for b and c. */
  lemma Widen(m: seq<word>, st: State, T: nat, N: nat)
    requires Shape(m, st, T, N) && st.bcLen + 2 <= N
    ensures Shape(m, st.(bcLen := st.bcLen + 2), T, N)
    ensures B(m, st.(bcLen := st.bcLen + 2)) == B(m, st) && C(m, st.(bcLen := st.bcLen + 2)) == C(m, st)
    ensures m[st.c + st.bcLen + 1] == 0
  {
    hide V;
    Longer(m, st.b, st.bcLen, st.bcLen + 2, N);
    Longer(m, st.c, st.bcLen, st.bcLen + 2, N);
  }

  /** What a write inside c leaves alone. */
  lemma OnlyC(m: seq<word>, m': seq<word>, st: State, T: nat, N: nat)
    requires Shape(m, st, T, N) && Frame(m, m', st.c, st.bcLen)
    ensures Shape(m', st, T, N) && Frame(m, m', T, 4 * N)
    ensures B(m', st) == B(m, st) && F(m', st) == F(m, st) && G(m', st) == G(m, st)
  {
    hide V;
    SameV(m, m', st.b, st.bcLen);
    SameV(m, m', st.f, st.fgLen);
    SameV(m, m', st.g, st.fgLen);
  }

  lemma OnlyF(m: seq<word>, m': seq<word>, st: State, T: nat, N: nat)
    requires Shape(m, st, T, N) && Frame(m, m', st.f, st.fgLen)
    ensures Shape(m', st, T, N) && Frame(m, m', T, 4 * N)
    ensures B(m', st) == B(m, st) && C(m', st) == C(m, st) && G(m', st) == G(m, st)
  {
    hide V;
    SameV(m, m', st.b, st.bcLen);
    SameV(m, m', st.c, st.bcLen);
    SameV(m, m', st.g, st.fgLen);
  }

  lemma OnlyB(m: seq<word>, m': seq<word>, st: State, T: nat, N: nat)
    requires Shape(m, st, T, N) && Frame(m, m', st.b, st.bcLen)
    ensures Shape(m', st, T, N) && Frame(m, m', T, 4 * N)
    ensures C(m', st) == C(m, st) && F(m', st) == F(m, st) && G(m', st) == G(m, st)
  {
    hide V;
    SameV(m, m', st.c, st.bcLen);
    SameV(m, m', st.f, st.fgLen);
    SameV(m, m', st.g, st.fgLen);
  }

  lemma ShapeBounds(m: seq<word>, st: State, T: nat, N: nat)
    requires Shape(m, st, T, N)
    ensures 2 <= st.bcLen <= N && 2 <= st.fgLen <= N && st.bcLen % 2 == 0 && st.fgLen % 2 == 0 && N % 2 == 0
    ensures st.b + N <= |m| && st.c + N <= |m| && st.f + N <= |m| && st.g + N <= |m|
    ensures Disjoint(st.b, N, st.c, N) && Disjoint(st.f, N, st.g, N)
  {
  }

  /** f divided and c multiplied by W, when the low word of f is zero. */
  method WordShift(mem: array<word>, st: State, T: nat, N: nat) returns (st': State)
    requires Shape(mem[..], st, T, N) && mem[st.f] == 0
    requires mem[st.c + st.bcLen - 1] != 0 ==> st.bcLen + 2 <= N
    modifies mem
    ensures Frame(old(mem[..]), mem[..], T, 4 * N)
    ensures Shape(mem[..], st', T, N) && st'.k == st.k + WORD_BITS && st'.s == st.s
    ensures F(old(mem[..]), st) == W * F(mem[..], st') && C(mem[..], st') == W * C(old(mem[..]), st)
    ensures B(mem[..], st') == B(old(mem[..]), st) && G(mem[..], st') == G(old(mem[..]), st)
  {
    hide V, Sh, Layout, Padded;
    ghost var m0 := mem[..];
    ShapeBounds(m0, st, T, N);
    hide Shape;
    ShiftWordsRightByWords(mem, st.f, st.fgLen, 1);
    OneWord(m0, st.f, V(mem[..], st.f, st.fgLen));
    ghost var m1 := mem[..];
    OnlyF(m0, m1, st, T, N);
    st' := st.(k := st.k + WORD_BITS);
    CWord(m0, m1, st, T, N);
    if mem[st.c + st.bcLen - 1] != 0 {
      Widen(m1, st, T, N);
      st' := st'.(bcLen := st'.bcLen + 2);
    }
    ReK(m1, st'.(k := st.k), st'.k, T, N);
    Top(m1, st'.c, st'.bcLen - 1);
    ShMono(0, 0, st'.bcLen - 1);
    ShiftWordsLeftByWords(mem, st'.c, st'.bcLen, 1);
    OneWord(m1, st'.c, V(m1, st'.c, st'.bcLen - 1));
    OnlyC(m1, mem[..], st', T, N);
  }

  lemma OneWord(m: seq<word>, p: nat, x: int)
    requires p + 1 <= |m|
    ensures V(m, p, 1) == m[p] && Sh(x, 1) == W * x
  {
    V1(m, p);
    ShOne(x);
  }

  lemma CWord(m0: seq<word>, m1: seq<word>, st: State, T: nat, N: nat)
    requires Shape(m0, st, T, N) && Frame(m0, m1, st.f, st.fgLen)
    ensures m1[st.c + st.bcLen - 1] == m0[st.c + st.bcLen - 1]
  {
  }

  lemma ReK(m: seq<word>, st: State, k: nat, T: nat, N: nat)
    requires Shape(m, st, T, N)
    ensures Shape(m, st.(k := k), T, N)
    ensures B(m, st.(k := k)) == B(m, st) && C(m, st.(k := k)) == C(m, st)
    ensures F(m, st.(k := k)) == F(m, st) && G(m, st.(k := k)) == G(m, st)
  {
  }

  lemma WordRoom(m: seq<word>, p: nat, len: nat, N: nat, c: int, f: int, f': int, M: int)
    requires 2 <= len <= N && len % 2 == 0 && N % 2 == 0 && p + len <= |m|
    requires c == V(m, p, len) && f == W * f' && f > 0 && c * f <= M < Pw(N)
    ensures m[p + len - 1] != 0 ==> len + 2 <= N
  {
    hide V, Sh, Pw;
    if m[p + len - 1] != 0 {
      TopSet(m, p, len);
      PwShift(len - 1, 1);
      ShOne(Pw(len - 1));
      MulMonotone(c, W, f);
      MulMonotone(W, Pw(len - 1), c);
      RoomForPair(len, N, M);
    }
  }

  /** The word loop's step on the numbers: f loses a factor W, c gains one. */
  method WordStep(mem: array<word>, st: State, T: nat, N: nat, ghost A: int, ghost M: int, ghost w: Witness)
    returns (st': State, ghost w': Witness)
    requires Inv(mem[..], st, T, N, A, M, w) && mem.Length >= T + 4 * N
    requires st.f < mem.Length && mem[st.f] == 0 && F(mem[..], st) > 0
    modifies mem
    ensures Frame(old(mem[..]), mem[..], T, 4 * N)
    ensures Inv(mem[..], st', T, N, A, M, w')
    ensures 0 < F(mem[..], st') < F(old(mem[..]), st) && G(mem[..], st') == G(old(mem[..]), st)
  {
    hide V, Sh, Pw, Two, Layout, Padded;
    ghost var m0 := mem[..];
    ShapeBounds(m0, st, T, N);
    ghost var b, c, f, g := B(m0, st), C(m0, st), F(m0, st), G(m0, st);
    Low(m0, st.f, st.fgLen);
    SizeBounds(b, c, f, g, M);
    WordRoom(m0, st.c, st.bcLen, N, c, f, V(m0, st.f + 1, st.fgLen - 1), M);
    hide Shape, Numbers;
    st' := WordShift(mem, st, T, N);
    ShapeBounds(mem[..], st', T, N);
    TwoWord();
    w' := NumbersShift(b, c, f, g, st.k, st.s, A, M, w, WORD_BITS, F(mem[..], st'));
  }

  /** Low zero bits of a nonzero word. */
  method TrailingZeros(u: word) returns (t: word, i: nat)
    requires u != 0
    ensures i < WORD_BITS && t % 2 == 1 && u == t * Two(i)
  {
    hide Two;
    t, i := u, 0;
    MulOne(u);
    while t % 2 == 0
      invariant t != 0 && u == t * Two(i)
      invariant i < WORD_BITS
      decreases t
    {
      ghost var t0: int := t;
      t := t / 2;
      i := i + 1;
      HalfStep(t0, t, i);
      BitsLeft(u, t, i);
    }
  }

  lemma HalfStep(t0: int, t: int, i: nat)
    requires 0 < i && t0 == 2 * t
    ensures t0 * Two(i - 1) == t * Two(i)
  {
    assert Two(i) == 2 * Two(i - 1);
    assert (2 * t) * Two(i - 1) == t * (2 * Two(i - 1));
  }

  lemma BitsLeft(u: word, t: int, i: nat)
    requires t != 0 && u == t * Two(i) && i <= WORD_BITS
    ensures i < WORD_BITS
  {
    hide Two;
    TwoWord();
    if t < 0 { MulMonotone(Two(i), t, -1); }
    if i >= WORD_BITS { MulMonotone(Two(i), 1, t); }
  }

  /** A run whose low word is an odd multiple of 2^i, shifted down by i bits. */
  lemma ExactShift(f: int, low: word, t: word, i: nat, rest: int, f': int, rem: int)
    requires i < WORD_BITS && t % 2 == 1 && low == t * Two(i) && f == low + W * rest
    requires f == Two(i) * f' + rem && 0 <= rem < Two(i)
    ensures rem == 0 && f == Two(i) * f' && f' % 2 == 1
  {
    hide Two;
    var h := OddFactor(f, low, t, i, rest);
    DivUnique(f, Two(i), h, 0);
    DivUnique(f, Two(i), f', rem);
  }

  lemma OddFactor(f: int, low: int, t: int, i: nat, rest: int) returns (h: int)
    requires i < WORD_BITS && t % 2 == 1 && low == t * Two(i) && f == low + W * rest
    ensures f == Two(i) * h && h % 2 == 1
  {
    hide Two;
    var q := Two(WORD_BITS - i);
    TwoSplit(i);
    Regroup(Two(i), q, rest);
    Distribute(t, q * rest, Two(i));
    TwoEven(WORD_BITS - i);
    EvenTimes(q, rest);
    h := t + q * rest;
  }

  lemma TwoEven(n: nat)
    requires 0 < n
    ensures Two(n) % 2 == 0
  {
  }

  lemma EvenTimes(q: int, x: int)
    requires q % 2 == 0
    ensures (q * x) % 2 == 0
  {
    var h := q / 2;
    assert q * x == 2 * (h * x);
  }

  /** f shifted down and c up by i bits, c growing by a pair if it must. */
  method BitShift(mem: array<word>, st: State, T: nat, N: nat, i: nat, t: word, ghost M: int) returns (st': State)
    requires Shape(mem[..], st, T, N) && st.f < mem.Length && i < WORD_BITS
    requires t % 2 == 1 && mem[st.f] == t * Two(i)
    requires C(mem[..], st) * F(mem[..], st) <= M < Pw(N)
    modifies mem
    ensures Frame(old(mem[..]), mem[..], T, 4 * N)
    ensures Shape(mem[..], st', T, N) && st'.k == st.k + i && st'.s == st.s
    ensures F(old(mem[..]), st) == Two(i) * F(mem[..], st') && F(mem[..], st') % 2 == 1
    ensures C(mem[..], st') == C(old(mem[..]), st) * Two(i)
    ensures B(mem[..], st') == B(old(mem[..]), st) && G(mem[..], st') == G(old(mem[..]), st)
  {
    hide V, Sh, Pw, Two, Layout, Padded;
    ghost var m0 := mem[..];
    ShapeBounds(m0, st, T, N);
    ghost var c, f := C(m0, st), F(m0, st);
    Low(m0, st.f, st.fgLen);
    hide Shape;
    var _, rem := ShiftWordsRightByBits(mem, st.f, st.fgLen, i);
    ghost var m1 := mem[..];
    OnlyF(m0, m1, st, T, N);
    ghost var f' := F(m1, st);
    ExactShift(f, m0[st.f], t, i, V(m0, st.f + 1, st.fgLen - 1), f', rem);
    var carry := ShiftWordsLeftByBits(mem, st.c, st.bcLen, i);
    ghost var m2 := mem[..];
    OnlyC(m1, m2, st, T, N);
    BitRoom(c, f, f', i, M);
    st' := AppendC(mem, st, T, N, carry, c * Two(i), M);
    ReK(mem[..], st', st.k + i, T, N);
    st' := st'.(k := st.k + i);
  }

  lemma BitRoom(c: int, f: int, f': int, i: nat, M: int)
    requires c >= 0 && f' % 2 == 1 && f == Two(i) * f' && f >= 0 && c * f <= M
    ensures c * Two(i) <= M
  {
    hide Two;
    if f' < 0 { MulMonotone(Two(i), f', -1); }
    assert c * (Two(i) * f') == (c * Two(i)) * f';
    MulMonotone(Two(i), 0, c);
    MulMonotone(c * Two(i), 1, f');
  }

  /** The carry out of c becomes a new word. */
  method AppendC(mem: array<word>, st: State, T: nat, N: nat, carry: word, ghost v: int, ghost M: int)
    returns (st': State)
    requires Shape(mem[..], st, T, N)
    requires C(mem[..], st) + Sh(carry, st.bcLen) == v <= M < Pw(N)
    modifies mem
    ensures Frame(old(mem[..]), mem[..], T, 4 * N)
    ensures Shape(mem[..], st', T, N) && st'.k == st.k && st'.s == st.s
    ensures C(mem[..], st') == v && B(mem[..], st') == B(old(mem[..]), st)
    ensures F(mem[..], st') == F(old(mem[..]), st) && G(mem[..], st') == G(old(mem[..]), st)
  {
    hide V, Sh, Pw, Layout, Padded;
    ghost var m0 := mem[..];
    ShapeBounds(m0, st, T, N);
    hide Shape;
    ShMono(0, 0, st.bcLen);
    st' := st;
    if carry != 0 {
      CarryRoom(C(m0, st), carry, st.bcLen, N, v, M);
      Widen(m0, st, T, N);
      st' := st.(bcLen := st.bcLen + 2);
      mem[st.c + st.bcLen] := carry;
      ghost var m1 := mem[..];
      OnlyC(m0, m1, st', T, N);
      Grow(m0, m1, st.c, st.bcLen);
      Top(m1, st.c, st.bcLen + 1);
      ShMono(0, 0, st.bcLen + 1);
    }
  }

  lemma CarryRoom(low: int, carry: word, len: nat, N: nat, v: int, M: int)
    requires carry != 0 && 0 <= low && low + Sh(carry, len) == v <= M < Pw(N) && len % 2 == 0 && N % 2 == 0
    ensures len + 2 <= N
  {
    hide Sh, Pw;
    ShMono(1, carry, len);
    PwOne(len);
    RoomForPair(len, N, M);
  }

  /** The bit shift on the numbers: f becomes odd. */
  method BitStep(mem: array<word>, st: State, T: nat, N: nat, i: nat, t: word, ghost A: int, ghost M: int,
      ghost w: Witness)
    returns (st': State, ghost w': Witness)
    requires Inv(mem[..], st, T, N, A, M, w) && st.f + st.fgLen <= mem.Length && i < WORD_BITS
    requires t % 2 == 1 && mem[st.f] == t * Two(i) && F(mem[..], st) > 0
    modifies mem
    ensures Frame(old(mem[..]), mem[..], T, 4 * N)
    ensures Inv(mem[..], st', T, N, A, M, w') && st'.f + st'.fgLen <= mem.Length
    ensures F(mem[..], st') <= F(old(mem[..]), st) && F(mem[..], st') % 2 == 1
    ensures F(old(mem[..]), st) == Two(i) * F(mem[..], st')
    ensures G(mem[..], st') == G(old(mem[..]), st)
  {
    hide V, Sh, Pw, Two, Layout, Padded;
    ghost var m0 := mem[..];
    ShapeBounds(m0, st, T, N);
    ghost var b, c, f, g := B(m0, st), C(m0, st), F(m0, st), G(m0, st);
    SizeBounds(b, c, f, g, M);
    hide Shape, Numbers;
    st' := BitShift(mem, st, T, N, i, t, M);
    ShapeBounds(mem[..], st', T, N);
    ghost var f' := F(mem[..], st');
    Shrinks(f, Two(i), f');
    w' := NumbersShift(b, c, f, g, st.k, st.s, A, M, w, i, f');
  }

  lemma Shrinks(f: int, p: int, f': int)
    requires f == p * f' && f > 0 && p > 0
    ensures 0 < f' <= f
  {
    if f' <= 0 { MulMonotone(p, f', 0); }
    MulMonotone(f', 1, p);
  }

  /** Dropping a pair of words that is zero in both f and g. */
  method Trim(mem: array<word>, st: State, T: nat, N: nat) returns (st': State)
    requires Shape(mem[..], st, T, N) && F(mem[..], st) % 2 == 1
    ensures Shape(mem[..], st', T, N) && st'.k == st.k && st'.s == st.s
    ensures B(mem[..], st') == B(mem[..], st) && C(mem[..], st') == C(mem[..], st)
    ensures F(mem[..], st') == F(mem[..], st) && G(mem[..], st') == G(mem[..], st)
  {
    hide V, Padded;
    ghost var m := mem[..];
    ShapeBounds(m, st, T, N);
    st' := st;
    if mem[st.f + st.fgLen - 2] == 0 && mem[st.g + st.fgLen - 2] == 0
       && mem[st.f + st.fgLen - 1] == 0 && mem[st.g + st.fgLen - 1] == 0 {
      DropPair(m, st.f, st.fgLen);
      DropPair(m, st.g, st.fgLen);
      NotEmpty(m, st.f, st.fgLen);
      st' := st.(fgLen := st.fgLen - 2);
    }
  }

  lemma NotEmpty(m: seq<word>, p: nat, len: nat)
    requires 2 <= len && len % 2 == 0 && p + len <= |m| && V(m, p, len) % 2 == 1
    requires m[p + len - 2] == 0 && m[p + len - 1] == 0
    ensures len >= 4
  {
    hide V;
    Low(m, p, len);
  }

  /** Swap if f is the smaller, then f -= g and b += c. */
  method SubtractStep(mem: array<word>, st: State, T: nat, N: nat, ghost A: int, ghost M: int, ghost w: Witness)
    returns (st': State, ghost w': Witness)
    requires Inv(mem[..], st, T, N, A, M, w) && st.f + st.fgLen <= mem.Length && st.g + st.fgLen <= mem.Length
    requires F(mem[..], st) % 2 == 1 && F(mem[..], st) > 1
    modifies mem
    ensures Frame(old(mem[..]), mem[..], T, 4 * N)
    ensures Inv(mem[..], st', T, N, A, M, w')
    ensures F(mem[..], st') + G(mem[..], st') < F(old(mem[..]), st) + G(old(mem[..]), st)
  {
    hide V, Sh, Pw, Two, Layout, Padded;
    ghost var m := mem[..];
    ShapeBounds(m, st, T, N);
    var cmp := Compare(mem, st.f, st.g, st.fgLen);
    st', w' := st, w;
    if cmp == -1 {
      w' := NumbersSwap(B(m, st), C(m, st), F(m, st), G(m, st), st.k, st.s, A, M, w);
      SwapShape(m, st, T, N);
      st' := State(st.c, st.b, st.g, st.f, st.bcLen, st.fgLen, st.k, st.s + 1);
    }
    st', w' := AddAndSubtract(mem, st', T, N, A, M, w');
  }

  lemma SwapShape(m: seq<word>, st: State, T: nat, N: nat)
    requires Shape(m, st, T, N)
    ensures Shape(m, State(st.c, st.b, st.g, st.f, st.bcLen, st.fgLen, st.k, st.s + 1), T, N)
  {
  }

  /** f -= g and b += c, where f is at least g. */
  method AddAndSubtract(mem: array<word>, st: State, T: nat, N: nat, ghost A: int, ghost M: int, ghost w: Witness)
    returns (st': State, ghost w': Witness)
    requires Shape(mem[..], st, T, N) && st.b + N <= mem.Length && st.c + N <= mem.Length && st.f + N <= mem.Length
        && st.g + N <= mem.Length
    requires 2 <= st.bcLen <= N && 2 <= st.fgLen <= N && M < Pw(N)
    requires Swapped(B(mem[..], st), C(mem[..], st), F(mem[..], st), G(mem[..], st), st.k, st.s, A, M, w)
    requires F(mem[..], st) >= G(mem[..], st)
    modifies mem
    ensures Frame(old(mem[..]), mem[..], T, 4 * N)
    ensures Inv(mem[..], st', T, N, A, M, w')
    ensures F(mem[..], st') + G(mem[..], st') < F(old(mem[..]), st) + G(old(mem[..]), st)
  {
    hide V, Sh, Pw, Two, Layout, Padded;
    ghost var m0 := mem[..];
    ShapeBounds(m0, st, T, N);
    ghost var b, c, f, g := B(m0, st), C(m0, st), F(m0, st), G(m0, st);
    SizeBounds(b, c, f, g, M);
    w' := NumbersSubtract(b, c, f, g, st.k, st.s, A, M, w);
    hide Shape, Numbers, Swapped;
    var borrow := Subtract(mem, st.f, st.f, st.g, st.fgLen);
    ghost var m1 := mem[..];
    OnlyF(m0, m1, st, T, N);
    NoBorrow(F(m1, st), borrow, st.fgLen, f - g);
    var carry := Add(mem, st.b, st.b, st.c, st.bcLen);
    ghost var m2 := mem[..];
    OnlyB(m1, m2, st, T, N);
    st' := AppendB(mem, st, T, N, carry, b + c, M);
  }

  lemma NoBorrow(v: int, borrow: word, n: nat, x: int)
    requires 0 <= v < Pw(n) && v - Sh(borrow, n) == x && x >= 0 && borrow <= 1
    ensures v == x
  {
    hide Sh, Pw;
    PwOne(n);
    ShMono(0, 0, n);
  }

  /** The carry out of b becomes a new word. */
  method AppendB(mem: array<word>, st: State, T: nat, N: nat, carry: word, ghost v: int, ghost M: int)
    returns (st': State)
    requires Shape(mem[..], st, T, N) && carry <= 1
    requires B(mem[..], st) + Sh(carry, st.bcLen) == v <= M < Pw(N)
    modifies mem
    ensures Frame(old(mem[..]), mem[..], T, 4 * N)
    ensures Shape(mem[..], st', T, N) && st'.k == st.k && st'.s == st.s
    ensures B(mem[..], st') == v && C(mem[..], st') == C(old(mem[..]), st)
    ensures F(mem[..], st') == F(old(mem[..]), st) && G(mem[..], st') == G(old(mem[..]), st)
  {
    hide V, Sh, Pw, Layout, Padded;
    ghost var m0 := mem[..];
    ShapeBounds(m0, st, T, N);
    hide Shape;
    ShMono(0, 0, st.bcLen);
    st' := st;
    if carry != 0 {
      CarryRoom(B(m0, st), carry, st.bcLen, N, v, M);
      WidenB(m0, st, T, N);
      st' := st.(bcLen := st.bcLen + 2);
      mem[st.b + st.bcLen] := 1;
      ghost var m1 := mem[..];
      OnlyB(m0, m1, st', T, N);
      Grow(m0, m1, st.b, st.bcLen);
      Top(m1, st.b, st.bcLen + 1);
      ShMono(0, 0, st.bcLen + 1);
    }
  }

  lemma WidenB(m: seq<word>, st: State, T: nat, N: nat)
    requires Shape(m, st, T, N) && st.bcLen + 2 <= N
    ensures Shape(m, st.(bcLen := st.bcLen + 2), T, N)
    ensures B(m, st.(bcLen := st.bcLen + 2)) == B(m, st) && C(m, st.(bcLen := st.bcLen + 2)) == C(m, st)
    ensures m[st.b + st.bcLen + 1] == 0
  {
    hide V;
    Widen(m, st, T, N);
  }

  /** A common factor of A and M rules an inverse out. */
  lemma NoInverse(A: int, M: int, p: int, b: int, g: int, x: int)
    requires 1 < M && 1 < g && A == p * g && M == b * g
    ensures !IsInverse(x, A, M)
  {
    if IsInverse(x, A, M) {
      DivUnique(1, M, 0, 1);
      DivParts(A * x, M);
      var j := (A * x) / M;
      CommonFactor(p, b, g, x, j);
    }
  }

  lemma CommonFactor(p: int, b: int, g: int, x: int, j: int)
    requires 1 < g
    ensures (p * g) * x != (b * g) * j + 1
  {
    assert (p * g) * x == g * (p * x) && (b * g) * j == g * (b * j);
    var d := p * x - b * j;
    Distribute(p * x, b * j, g);
    if d >= 1 { MulMonotone(g, 1, d); }
    if d <= 0 { MulMonotone(g, d, 0); }
  }

  /** b := 1 and c := 0; f is cleared as well. */
  method StartCofactors(mem: array<word>, T: nat, N: nat)
    requires 2 <= N && T + 4 * N <= mem.Length
    modifies mem
    ensures Frame(old(mem[..]), mem[..], T, 3 * N)
    ensures mem[T] == 1 && forall i :: T < i < T + 3 * N ==> mem[i] == 0
  {
    SetWords(mem, T, 0, 3 * N);
    mem[T] := 1;
  }

  /** f := A, padded with zeros, and g := M. */
  method StartOperands(mem: array<word>, T: nat, A: nat, NA: nat, M: nat, N: nat)
    requires NA <= N && 2 <= N && T + 4 * N <= mem.Length && A + NA <= mem.Length && M + N <= mem.Length
    requires Disjoint(T, 4 * N, A, NA) && Disjoint(T, 4 * N, M, N)
    requires forall i :: T < i < T + 3 * N ==> mem[i] == 0
    modifies mem
    ensures Frame(old(mem[..]), mem[..], T + 2 * N, 2 * N)
    ensures V(mem[..], T + 2 * N, N) == V(old(mem[..]), A, NA)
    ensures V(mem[..], T + 3 * N, N) == V(old(mem[..]), M, N)
  {
    hide V;
    ghost var m1 := mem[..];
    CopyWords(mem, T + 2 * N, A, NA);
    ghost var m2 := mem[..];
    SameV(m1, m2, M, N);
    assert Padded(m2, T + 2 * N, NA, N);
    Longer(m2, T + 2 * N, NA, N, N);
    CopyWords(mem, T + 3 * N, M, N);
    Kept(m2, mem[..], T + 3 * N, N, T + 2 * N, N);
  }

  /** b = 1, c = 0, f = A, g = M. */
  method Start(mem: array<word>, T: nat, A: nat, NA: nat, M: nat, N: nat) returns (st: State, ghost w: Witness)
    requires NA <= N && 2 <= N && N % 2 == 0 && T + 4 * N <= mem.Length && A + NA <= mem.Length && M + N <= mem.Length
    requires Disjoint(T, 4 * N, A, NA) && Disjoint(T, 4 * N, M, N)
    requires NoLonger(V(mem[..], A, NA), V(mem[..], M, N)) && V(mem[..], M, N) % 2 == 1
    modifies mem
    ensures Frame(old(mem[..]), mem[..], T, 4 * N)
    ensures Inv(mem[..], st, T, N, V(old(mem[..]), A, NA), V(old(mem[..]), M, N), w)
  {
    hide V, Sh, Pw, Two, Numbers;
    ghost var m0 := mem[..];
    ghost var a, m := V(m0, A, NA), V(m0, M, N);
    var fgLen := EvenWordCount(mem, M, N);
    Empty(m0, M);
    st := State(T, T + N, T + 2 * N, T + 3 * N, 2, fgLen, 0, 0);
    StartCofactors(mem, T, N);
    ghost var m1 := mem[..];
    Kept(m0, m1, T, 3 * N, A, NA);
    Kept(m0, m1, T, 3 * N, M, N);
    StartOperands(mem, T, A, NA, M, N);
    ghost var m3 := mem[..];
    V2(m3, T);
    V2(m3, T + N);
    Shorter(m3, T + 2 * N, fgLen, N);
    Shorter(m3, T + 3 * N, fgLen, N);
    w := Witness(0, 1, 1, 0);
    StartNumbers(a, m);
  }

  lemma Shorter(m: seq<word>, p: nat, len: nat, N: nat)
    requires len <= N && p + N <= |m| && V(m, p, N) < Pw(len)
    ensures V(m, p, len) == V(m, p, N)
  {
    hide V, Sh, Pw;
    Split(m, p, len, N - len);
    PwOne(len);
    ShMono(0, 0, len);
    var high := V(m, p + len, N - len);
    if high >= 1 { ShMono(1, high, len); }
  }

  lemma StartNumbers(a: int, m: int)
    requires 0 <= a && 1 <= m && m % 2 == 1
    ensures Numbers(1, 0, a, m, 0, 0, a, m, Witness(0, 1, 1, 0))
  {
    assert Two(0) == 1;
  }

  /** Drops zero words off f; finds out whether f is zero. */
  method SkipZeroWords(mem: array<word>, st: State, T: nat, N: nat, ghost A: int, ghost M: int, ghost w: Witness)
    returns (st': State, ghost w': Witness, zero: bool)
    requires Inv(mem[..], st, T, N, A, M, w) && st.f + st.fgLen <= mem.Length && st.g + st.fgLen <= mem.Length
    modifies mem
    ensures Frame(old(mem[..]), mem[..], T, 4 * N)
    ensures st'.f + st'.fgLen <= mem.Length && st'.g + st'.fgLen <= mem.Length && 2 <= st'.fgLen
    ensures Inv(mem[..], st', T, N, A, M, w')
    ensures F(mem[..], st') <= F(old(mem[..]), st) && G(mem[..], st') == G(old(mem[..]), st)
    ensures zero <==> F(mem[..], st') == 0
    ensures !zero ==> mem[st'.f] != 0
  {
    hide V, Pw, Two, Layout, Padded, Numbers;
    ghost var m0 := mem[..];
    st', w' := st, w;
    ShapeBounds(mem[..], st', T, N);
    while mem[st'.f] == 0
      invariant st'.f + st'.fgLen <= mem.Length && st'.g + st'.fgLen <= mem.Length && 2 <= st'.fgLen
      invariant Frame(m0, mem[..], T, 4 * N)
      invariant Inv(mem[..], st', T, N, A, M, w')
      invariant F(mem[..], st') <= F(m0, st) && G(mem[..], st') == G(m0, st)
      decreases F(mem[..], st')
    {
      ShapeBounds(mem[..], st', T, N);
      var n := EvenWordCount(mem, st'.f, st'.fgLen);
      EmptyRun(mem[..], st'.f, n);
      if n == 0 {
        return st', w', true;
      }
      st', w' := WordStep(mem, st', T, N, A, M, w');
      ShapeBounds(mem[..], st', T, N);
    }
    ShapeBounds(mem[..], st', T, N);
    NonZeroWord(mem[..], st'.f, st'.fgLen);
    return st', w', false;
  }

  lemma EmptyRun(m: seq<word>, p: nat, n: nat)
    requires p + n <= |m|
    ensures n == 0 ==> V(m, p, n) == 0
    ensures n > 0 && n % 2 == 0 && (m[p + n - 2] != 0 || m[p + n - 1] != 0) ==> V(m, p, n) > 0
  {
    hide V;
    ZeroV(m, p, n);
    Empty(m, p);
  }

  lemma NonZeroWord(m: seq<word>, p: nat, n: nat)
    requires 0 < n && p + n <= |m| && m[p] != 0
    ensures V(m, p, n) > 0
  {
    hide V;
    ZeroV(m, p, n);
  }

  /** The result is positive and below the modulus; modulo 1 it is one for every A
      but zero. */
  ghost predicate InRange(r: int, A: int, M: int) {
    0 < r && (r < M || (r == M == 1 && 1 <= A))
  }

  /** R := b or M - b, according to the sign. */
  method Deliver(mem: array<word>, R: nat, M: nat, st: State, T: nat, N: nat, i: nat, ghost A: int, ghost w: Witness)
    returns (ghost z: int)
    requires R + N <= mem.Length && M + N <= mem.Length && T + 4 * N <= mem.Length
    requires st.f + st.fgLen <= mem.Length
    requires Inv(mem[..], st, T, N, A, V(mem[..], M, N), w)
    requires Disjoint(R, N, T, 4 * N) && Disjoint(R, N, M, N)
    requires F(mem[..], st) == Two(i)
    modifies mem
    ensures Frame(old(mem[..]), mem[..], R, N)
    ensures InRange(V(mem[..], R, N), A, V(old(mem[..]), M, N))
    ensures A * V(mem[..], R, N) == Two(st.k + i) + V(old(mem[..]), M, N) * z
  {
    hide V, Sh, Pw, Two, Padded;
    ghost var m0 := mem[..];
    ghost var m := V(m0, M, N);
    ShapeBounds(m0, st, T, N);
    ghost var b, c, f, g := B(m0, st), C(m0, st), F(m0, st), G(m0, st);
    SizeBounds(b, c, f, g, m);
    Longer(m0, st.b, st.bcLen, N, N);
    FinalNumbers(b, c, f, g, st.k, st.s, A, m, w, i);
    if st.s % 2 == 0 {
      CopyWords(mem, R, st.b, N);
      z := w.x;
    } else {
      var borrow := Subtract(mem, R, M, st.b, N);
      NoBorrow(V(mem[..], R, N), borrow, N, m - b);
      z := A - w.x;
    }
  }

  lemma FinalNumbers(b: int, c: int, f: int, g: int, k: nat, s: nat, A: int, M: int, w: Witness, i: nat)
    requires Numbers(b, c, f, g, k, s, A, M, w) && f == Two(i)
    ensures s % 2 == 0 ==> A * b == Two(k + i) + M * w.x
    ensures s % 2 == 1 ==> A * (M - b) == Two(k + i) + M * (A - w.x)
  {
    hide Two;
    TwoAdd(i, k);
    Distribute(M, b, A);
    Distribute(A, w.x, M);
  }

  /** f is a power of two exactly when its odd part is one. */
  lemma OnePart(m: seq<word>, p: nat, n: nat, t: word, i: nat, f': int)
    requires 2 <= n && p + n <= |m| && i < WORD_BITS && t % 2 == 1 && m[p] == t * Two(i)
    requires V(m, p, n) == Two(i) * f'
    ensures f' == 1 ==> t == 1 && forall j :: p < j < p + n ==> m[j] == 0
  {
    hide V, Two;
    if f' == 1 {
      Low(m, p, n);
      ZeroV(m, p + 1, n - 1);
      MulMonotone(Two(i), 1, t);
    }
  }

  lemma PowerOfTwo(m: seq<word>, p: nat, n: nat, i: nat)
    requires 2 <= n && p + n <= |m| && m[p] == Two(i) && m[p + 1] == 0 && V(m, p, 2) == V(m, p, n)
    ensures V(m, p, n) == Two(i)
  {
    hide V, Two;
    V2(m, p);
  }

  lemma ZeroCase(m: seq<word>, st: State, T: nat, N: nat, A: int, M: int, w: Witness)
    requires st.f + st.fgLen <= |m| && F(m, st) == 0 && 0 < M
    requires Inv(m, st, T, N, A, M, w)
    ensures M == 1 || forall x :: !IsInverse(x, A, M)
  {
    hide V, Pw, Two, IsInverse;
    var b, g := B(m, st), G(m, st);
    if M != 1 {
      MulMonotone(b, 1, g);
      forall x
        ensures !IsInverse(x, A, M)
      {
        NoInverse(A, M, w.q, b, g, x);
      }
    }
  }

  /** One round on an f whose low word is not zero: deliver the result, or make
      f odd, order f and g, and subtract. */
  method Iterate(mem: array<word>, R: nat, T: nat, M: nat, N: nat, st: State, ghost a: int, ghost m: int,
      ghost w: Witness)
    returns (st': State, ghost w': Witness, done: bool, k: nat, ghost z: int)
    requires Inv(mem[..], st, T, N, a, m, w) && 2 <= st.fgLen && st.f + st.fgLen <= mem.Length
        && st.g + st.fgLen <= mem.Length
    requires mem[st.f] != 0 && F(mem[..], st) > 0
    requires R + N <= mem.Length && M + N <= mem.Length && T + 4 * N <= mem.Length && m == V(mem[..], M, N)
    requires Disjoint(R, N, T, 4 * N) && Disjoint(R, N, M, N)
    modifies mem
    ensures done ==> Frame(old(mem[..]), mem[..], R, N)
    ensures done ==> InRange(V(mem[..], R, N), a, m) && a * V(mem[..], R, N) == Two(k) + m * z
    ensures !done ==> Frame(old(mem[..]), mem[..], T, 4 * N) && Inv(mem[..], st', T, N, a, m, w')
    ensures !done ==> st'.f + st'.fgLen <= mem.Length && st'.g + st'.fgLen <= mem.Length
    ensures !done ==> F(mem[..], st') + G(mem[..], st') < F(old(mem[..]), st) + G(old(mem[..]), st)
  {
    hide V, Sh, Pw, Two, Layout, Padded;
    ShapeBounds(mem[..], st, T, N);
    var t, i := TrailingZeros(mem[st.f]);
    var n := EvenWordCount(mem, st.f, st.fgLen);
    EmptyRun(mem[..], st.f, n);
    k := st.k + i;
    st', w', z, done := st, w, 0, false;
    if t == 1 && mem[st.f + 1] == 0 && n == 2 {
      MulOneTwo(i);
      PowerOfTwo(mem[..], st.f, st.fgLen, i);
      hide Shape, Numbers;
      z := Deliver(mem, R, M, st, T, N, i, a, w);
      done := true;
    } else {
      st', w' := Advance(mem, st, T, N, t, i, n, a, m, w);
      ShapeBounds(mem[..], st', T, N);
    }
  }

  lemma MulOneTwo(i: nat)
    ensures 1 * Two(i) == Two(i)
  {
  }

  /** The rest of a round that does not end the loop. */
  method Advance(mem: array<word>, st: State, T: nat, N: nat, t: word, i: nat, n: nat, ghost a: int, ghost m: int,
      ghost w: Witness)
    returns (st': State, ghost w': Witness)
    requires Inv(mem[..], st, T, N, a, m, w) && 2 <= st.fgLen && st.f + st.fgLen <= mem.Length
        && st.g + st.fgLen <= mem.Length
    requires i < WORD_BITS && t % 2 == 1 && mem[st.f] == t * Two(i) && F(mem[..], st) > 0
    requires n % 2 == 0 && n <= st.fgLen && (n > 0 ==> mem[st.f + n - 2] != 0 || mem[st.f + n - 1] != 0) && n > 0
    requires !(t == 1 && mem[st.f + 1] == 0 && n == 2)
    modifies mem
    ensures Frame(old(mem[..]), mem[..], T, 4 * N) && Inv(mem[..], st', T, N, a, m, w')
    ensures st'.f + st'.fgLen <= mem.Length && st'.g + st'.fgLen <= mem.Length
    ensures F(mem[..], st') + G(mem[..], st') < F(old(mem[..]), st) + G(old(mem[..]), st)
  {
    hide V, Sh, Pw, Two, Layout, Padded, Numbers;
    ghost var m0 := mem[..];
    st', w' := BitStep(mem, st, T, N, i, t, a, m, w);
    ghost var m1 := mem[..];
    OnePart(m0, st.f, st.fgLen, t, i, F(m1, st'));
    Shrinks(F(m0, st), Two(i), F(m1, st'));
    var st2 := Trim(mem, st', T, N);
    ShapeBounds(m1, st2, T, N);
    hide Shape;
    st', w' := SubtractStep(mem, st2, T, N, a, m, w');
    ShapeOfInv(mem[..], st', T, N, a, m, w');
  }

  lemma ShapeOfInv(m: seq<word>, st: State, T: nat, N: nat, A: int, M: int, w: Witness)
    requires Inv(m, st, T, N, A, M, w)
    ensures st.f + st.fgLen <= |m| && st.g + st.fgLen <= |m|
  {
  }

  /** R := A^-1 * 2^k modulo M, or zero if A and M share a factor. */
  method AlmostInverse(mem: array<word>, R: nat, T: nat, A: nat, NA: nat, M: nat, N: nat)
    returns (k: nat, ghost found: bool, ghost z: int)
    requires NA <= N && 2 <= N && N % 2 == 0
    requires R + N <= mem.Length && T + 4 * N <= mem.Length && A + NA <= mem.Length && M + N <= mem.Length
    requires Disjoint(T, 4 * N, R, N) && Disjoint(T, 4 * N, A, NA) && Disjoint(T, 4 * N, M, N) && Disjoint(R, N, M, N)
    requires NoLonger(V(mem[..], A, NA), V(mem[..], M, N)) && V(mem[..], M, N) % 2 == 1
    modifies mem
    ensures Frame2(old(mem[..]), mem[..], R, N, T, 4 * N)
    ensures var a, m := old(V(mem[..], A, NA)), old(V(mem[..], M, N));
      if found then InRange(V(mem[..], R, N), a, m) && a * V(mem[..], R, N) == Two(k) + m * z
      else V(mem[..], R, N) == 0 && k == 0 && (m == 1 || forall x :: !IsInverse(x, a, m))
  {
    hide V, Sh, Pw, Two, Layout, Padded, Numbers, IsInverse, InRange, NoLonger;
    ghost var m0 := mem[..];
    ghost var a, m := V(m0, A, NA), V(m0, M, N);
    var st;
    ghost var w;
    st, w := Start(mem, T, A, NA, M, N);
    ShapeOfInv(mem[..], st, T, N, a, m, w);
    while true
      invariant Frame(m0, mem[..], T, 4 * N)
      invariant Inv(mem[..], st, T, N, a, m, w) && st.f + st.fgLen <= mem.Length && st.g + st.fgLen <= mem.Length
      decreases F(mem[..], st) + G(mem[..], st)
    {
      var zero;
      ShapeBounds(mem[..], st, T, N);
      st, w, zero := SkipZeroWords(mem, st, T, N, a, m, w);
      if zero {
        ZeroCase(mem[..], st, T, N, a, m, w);
        SetWords(mem, R, 0, N);
        ZeroV(mem[..], R, N);
        return 0, false, 0;
      }
      var done;
      SameV(m0, mem[..], M, N);
      st, w, done, k, z := Iterate(mem, R, T, M, N, st, a, m, w);
      if done {
        return k, true, z;
      }
    }
  }
}

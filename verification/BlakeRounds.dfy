/** The BLAKE-512 mixing function and its sixteen rounds (_blake1.py). */
module BlakeRounds {
  import opened Base
  import opened Words

  const C512: seq<Word> := [
    0x243F6A8885A308D3, 0x13198A2E03707344, 0xA4093822299F31D0, 0x082EFA98EC4E6C89,
    0x452821E638D01377, 0xBE5466CF34E90C6C, 0xC0AC29B7C97C50DD, 0x3F84D5B5B5470917,
    0x9216D5D98979FB1B, 0xD1310BA698DFB5AC, 0x2FFD72DBD01ADFB7, 0xB8E1AFED6A267E96,
    0xBA7C9045F12C7F99, 0x24A19947B3916CF7, 0x0801F2E2858EFC16, 0x636920D871574E69]

  type Index = i: nat | i < 16

  const SIGMA: seq<seq<Index>> := [
    [0, 1, 2, 3, 4, 5, 6, 7, 8, 9, 10, 11, 12, 13, 14, 15],
    [14, 10, 4, 8, 9, 15, 13, 6, 1, 12, 0, 2, 11, 7, 5, 3],
    [11, 8, 12, 0, 5, 2, 15, 13, 10, 14, 3, 6, 7, 1, 9, 4],
    [7, 9, 3, 1, 13, 12, 11, 14, 2, 6, 5, 10, 4, 0, 15, 8],
    [9, 0, 5, 7, 2, 4, 10, 15, 14, 1, 11, 12, 6, 8, 3, 13],
    [2, 12, 6, 10, 0, 11, 8, 3, 4, 13, 7, 5, 15, 14, 1, 9],
    [12, 5, 1, 15, 14, 13, 4, 10, 0, 7, 6, 3, 9, 2, 8, 11],
    [13, 11, 7, 14, 12, 1, 3, 9, 5, 0, 15, 4, 8, 6, 2, 10],
    [6, 15, 14, 9, 11, 3, 0, 8, 12, 2, 13, 7, 1, 4, 10, 5],
    [10, 2, 8, 4, 7, 6, 1, 5, 15, 11, 9, 14, 3, 12, 13, 0]]

  /** The four state positions of the i-th mixing of a round: columns, then diagonals. */
  const LANES: seq<(Index, Index, Index, Index)> := [
    (0, 4, 8, 12), (1, 5, 9, 13), (2, 6, 10, 14), (3, 7, 11, 15),
    (0, 5, 10, 15), (1, 6, 11, 12), (2, 7, 8, 13), (3, 4, 9, 14)]

  // ---- One mixing -------------------------------------------------------------------

  datatype Quad = Quad(a: Word, b: Word, c: Word, d: Word)

  /** The assignments of `_G` as steps on its four words, and their inverses. */
  function AddB(q: Quad, x: Word): Quad { q.(a := U64(q.a + q.b + x)) }
  function SubB(q: Quad, x: Word): Quad { q.(a := U64(q.a - q.b - x)) }
  function AddD(q: Quad): Quad { q.(c := U64(q.c + q.d)) }
  function SubD(q: Quad): Quad { q.(c := U64(q.c - q.d)) }
  function TurnD(q: Quad, n: nat): Quad requires n <= 64 { q.(d := Rotr(Xor(q.d, q.a), n)) }
  function BackD(q: Quad, n: nat): Quad requires n <= 64 { q.(d := Xor(Rotr(q.d, 64 - n), q.a)) }
  function TurnB(q: Quad, n: nat): Quad requires n <= 64 { q.(b := Rotr(Xor(q.b, q.c), n)) }
  function BackB(q: Quad, n: nat): Quad requires n <= 64 { q.(b := Xor(Rotr(q.b, 64 - n), q.c)) }

  /** The steps of a mixing and their inverses, as values. */
  datatype Steps = Steps(addB: (Quad, Word) -> Quad, subB: (Quad, Word) -> Quad,
                         addD: Quad -> Quad, subD: Quad -> Quad,
                         d32: Quad -> Quad, d32': Quad -> Quad, b25: Quad -> Quad, b25': Quad -> Quad,
                         d16: Quad -> Quad, d16': Quad -> Quad, b11: Quad -> Quad, b11': Quad -> Quad)

  function BlakeSteps(): Steps {
    Steps(AddB, SubB, AddD, SubD,
          q => TurnD(q, 32), q => BackD(q, 32), q => TurnB(q, 25), q => BackB(q, 25),
          q => TurnD(q, 16), q => BackD(q, 16), q => TurnB(q, 11), q => BackB(q, 11))
  }

  /** The eight assignments in order. */
  function Forward(t: Steps, q: Quad, x: Word, y: Word): Quad {
    var q1 := t.b25(t.addD(t.d32(t.addB(q, x))));
    t.b11(t.addD(t.d16(t.addB(q1, y))))
  }

  /** The eight assignments undone in reverse order. */
  function Backward(t: Steps, q: Quad, x: Word, y: Word): Quad {
    var q1 := t.subB(t.d16'(t.subD(t.b11'(q))), y);
    t.subB(t.d32'(t.subD(t.b25'(q1))), x)
  }

  /** `_G` on its four words, with the two message inputs x and y. */
  function Mix(q: Quad, x: Word, y: Word): Quad {
    Forward(BlakeSteps(), q, x, y)
  }

  function Unmix(q: Quad, x: Word, y: Word): Quad {
    Backward(BlakeSteps(), q, x, y)
  }

  lemma SumBack(a: Word, u: int)
    ensures U64(U64(a + u) - u) == a
  {
    var k := (a + u) / W;
    DivModUnique(a + u - W * k - u, W, -k, a);
  }

  lemma AddBInverse(q: Quad, x: Word)
    ensures SubB(AddB(q, x), x) == q && AddB(SubB(q, x), x) == q
  {
    SumBack(q.a, q.b + x);
    SumBack(q.a, 0 - q.b - x);
  }

  lemma AddDInverse(q: Quad)
    ensures SubD(AddD(q)) == q && AddD(SubD(q)) == q
  {
    SumBack(q.c, q.d);
    SumBack(q.c, 0 - q.d);
  }

  lemma TurnBack(x: Word, y: Word, n: nat)
    requires n <= 64
    ensures Xor(Rotr(Rotr(Xor(x, y), n), 64 - n), y) == x
    ensures Rotr(Xor(Xor(Rotr(x, 64 - n), y), y), n) == x
  {
    RotrBack(Xor(x, y), n, 64 - n);
    XorCancels(x, y);
    XorCancels(Rotr(x, 64 - n), y);
    RotrBack(x, 64 - n, n);
  }

  lemma TurnDInverse(q: Quad, n: nat)
    requires n <= 64
    ensures BackD(TurnD(q, n), n) == q && TurnD(BackD(q, n), n) == q
  {
    TurnBack(q.d, q.a, n);
  }

  lemma TurnBInverse(q: Quad, n: nat)
    requires n <= 64
    ensures BackB(TurnB(q, n), n) == q && TurnB(BackB(q, n), n) == q
  {
    TurnBack(q.b, q.c, n);
  }

  ghost predicate Inverse<A(!new)>(f: A -> A, g: A -> A) {
    forall a :: g(f(a)) == a && f(g(a)) == a
  }

  ghost predicate Inverse2<A(!new), B(!new)>(f: (A, B) -> A, g: (A, B) -> A) {
    forall a, b :: g(f(a, b), b) == a && f(g(a, b), b) == a
  }

  ghost predicate Invertible(t: Steps) {
    Inverse2(t.addB, t.subB) && Inverse(t.addD, t.subD) && Inverse(t.d32, t.d32') && Inverse(t.b25, t.b25')
    && Inverse(t.d16, t.d16') && Inverse(t.b11, t.b11')
  }

  lemma StepsInvertible()
    ensures Invertible(BlakeSteps())
  {
    forall q: Quad, x: Word ensures SubB(AddB(q, x), x) == q && AddB(SubB(q, x), x) == q {
      AddBInverse(q, x);
    }
    forall q: Quad ensures SubD(AddD(q)) == q && AddD(SubD(q)) == q {
      AddDInverse(q);
    }
    forall q: Quad, n: nat | n <= 64 ensures BackD(TurnD(q, n), n) == q && TurnD(BackD(q, n), n) == q {
      TurnDInverse(q, n);
    }
    forall q: Quad, n: nat | n <= 64 ensures BackB(TurnB(q, n), n) == q && TurnB(BackB(q, n), n) == q {
      TurnBInverse(q, n);
    }
  }

  /** Composing invertible steps, whatever they are. */
  lemma ForwardBackward(t: Steps, q: Quad, x: Word, y: Word)
    requires Invertible(t)
    ensures Backward(t, Forward(t, q, x, y), x, y) == q && Forward(t, Backward(t, q, x, y), x, y) == q
  {
  }

  /** `_G` with its message inputs fixed is a bijection on four words. */
  lemma MixInverse(q: Quad, x: Word, y: Word)
    ensures Unmix(Mix(q, x, y), x, y) == q && Mix(Unmix(q, x, y), x, y) == q
  {
    StepsInvertible();
    ForwardBackward(BlakeSteps(), q, x, y);
  }

  lemma SumDetermines(a: Word, x: Word, y: Word, b: Word)
    requires U64(a + b + x) == U64(a + b + y)
    ensures x == y
  {
    SumBack(x, a + b);
    SumBack(y, a + b);
  }

  lemma XorDetermines(d: Word, x: Word, y: Word)
    requires Xor(d, x) == Xor(d, y)
    ensures x == y
  {
    XorSwaps(d, x);
    XorSwaps(d, y);
    XorCancels(x, d);
    XorCancels(y, d);
  }

  /** The first half shows its input in the word it turns. */
  lemma HalfDetermines(q: Quad, x: Word, y: Word)
    requires TurnD(AddB(q, x), 32).d == TurnD(AddB(q, y), 32).d
    ensures x == y
  {
    RotrBack(Xor(q.d, AddB(q, x).a), 32, 32);
    RotrBack(Xor(q.d, AddB(q, y).a), 32, 32);
    XorDetermines(q.d, AddB(q, x).a, AddB(q, y).a);
    SumDetermines(q.a, x, y, q.b);
  }

  /** The last three steps of either half hide nothing. */
  lemma LastStepsDetermine(q: Quad, r: Quad, n: nat, k: nat)
    requires n <= 64 && k <= 64 && TurnB(AddD(TurnD(q, n)), k) == TurnB(AddD(TurnD(r, n)), k)
    ensures q == r
  {
    TurnBInverse(AddD(TurnD(q, n)), k);
    TurnBInverse(AddD(TurnD(r, n)), k);
    AddDInverse(TurnD(q, n));
    AddDInverse(TurnD(r, n));
    TurnDInverse(q, n);
    TurnDInverse(r, n);
  }

  lemma SameFirst(h: Quad, h': Quad, y: Word, y': Word)
    requires AddB(h, y) == AddB(h', y')
    ensures h.d == h'.d && (h == h' ==> y == y')
  {
    if h == h' {
      SumDetermines(h.a, y, y', h.b);
    }
  }

  function FirstHalf(q: Quad, x: Word): Quad {
    TurnB(AddD(TurnD(AddB(q, x), 32)), 25)
  }

  lemma MixHalves(q: Quad, x: Word, y: Word)
    ensures Mix(q, x, y) == TurnB(AddD(TurnD(AddB(FirstHalf(q, x), y), 16)), 11)
    ensures FirstHalf(q, x).d == TurnD(AddB(q, x), 32).d
  {
  }

  /** A mixing hides neither of its message inputs: the words before and after it
      determine both. */
  lemma MixDetermines(q: Quad, x: Word, y: Word, x': Word, y': Word)
    requires Mix(q, x, y) == Mix(q, x', y')
    ensures x == x' && y == y'
  {
    var h, h' := FirstHalf(q, x), FirstHalf(q, x');
    MixHalves(q, x, y);
    MixHalves(q, x', y');
    LastStepsDetermine(AddB(h, y), AddB(h', y'), 16, 11);
    SameFirst(h, h', y, y');
    HalfDetermines(q, x, x');
  }

  // ---- The state ---------------------------------------------------------------------

  type State = s: seq<Word> | |s| == 16 witness seq(16, i => 0)
  type Lanes = (Index, Index, Index, Index)

  predicate Distinct(l: Lanes) {
    l.0 != l.1 && l.0 != l.2 && l.0 != l.3 && l.1 != l.2 && l.1 != l.3 && l.2 != l.3
  }

  function Get(v: State, l: Lanes): Quad {
    Quad(v[l.0], v[l.1], v[l.2], v[l.3])
  }

  function Put(v: State, l: Lanes, q: Quad): State {
    v[l.0 := q.a][l.1 := q.b][l.2 := q.c][l.3 := q.d]
  }

  lemma GetPut(v: State, l: Lanes, q: Quad, r: Quad)
    requires Distinct(l)
    ensures Get(Put(v, l, q), l) == q
    ensures Put(Put(v, l, q), l, r) == Put(v, l, r) && Put(v, l, Get(v, l)) == v
  {
  }

  /** The two message inputs of the i-th mixing under permutation row s. */
  function InputX(m: State, s: seq<Index>, i: nat): Word
    requires |s| == 16 && i < 8
  {
    Xor(m[s[2 * i]], C512[s[2 * i + 1]])
  }

  function InputY(m: State, s: seq<Index>, i: nat): Word
    requires |s| == 16 && i < 8
  {
    Xor(m[s[2 * i + 1]], C512[s[2 * i]])
  }

  /** The first four mixings take the columns of the 4 x 4 state, the others its diagonals. */
  lemma LaneForm(i: nat)
    requires i < 4
    ensures LANES[i] == (i, 4 + i, 8 + i, 12 + i)
    ensures LANES[4 + i] == (i, 4 + (i + 1) % 4, 8 + (i + 2) % 4, 12 + (i + 3) % 4)
  {
  }

  type Mixing = (Quad, Word, Word) -> Quad

  /** The i-th mixing of a round, with `mix` on its four words. */
  function G(mix: Mixing, v: State, m: State, s: seq<Index>, i: nat): State
    requires |s| == 16 && i < 8
  {
    Put(v, LANES[i], mix(Get(v, LANES[i]), InputX(m, s, i), InputY(m, s, i)))
  }

  /** `unmix` undoes `mix`, and the other way round, for all message inputs. */
  ghost predicate Undoes(mix: Mixing, unmix: Mixing) {
    forall q, x, y :: unmix(mix(q, x, y), x, y) == q && mix(unmix(q, x, y), x, y) == q
  }

  lemma LanesDistinct(i: nat)
    requires i < 8
    ensures Distinct(LANES[i])
  {
  }

  lemma GInverse(mix: Mixing, unmix: Mixing, v: State, m: State, s: seq<Index>, i: nat)
    requires |s| == 16 && i < 8 && Undoes(mix, unmix)
    ensures G(unmix, G(mix, v, m, s, i), m, s, i) == v
  {
    var l, x, y := LANES[i], InputX(m, s, i), InputY(m, s, i);
    var q := Get(v, l);
    LanesDistinct(i);
    GetPut(v, l, mix(q, x, y), q);
  }

  /** The first k mixings of a round. */
  function Round(mix: Mixing, v: State, m: State, s: seq<Index>, k: nat): State
    requires |s| == 16 && k <= 8
  {
    if k == 0 then v else G(mix, Round(mix, v, m, s, k - 1), m, s, k - 1)
  }

  /** No position in common. */
  predicate Apart(k: Lanes, l: Lanes) {
    && k.0 != l.0 && k.0 != l.1 && k.0 != l.2 && k.0 != l.3
    && k.1 != l.0 && k.1 != l.1 && k.1 != l.2 && k.1 != l.3
    && k.2 != l.0 && k.2 != l.1 && k.2 != l.2 && k.2 != l.3
    && k.3 != l.0 && k.3 != l.1 && k.3 != l.2 && k.3 != l.3
  }

  lemma ColumnsApart(i: nat, j: nat)
    requires i < 4 && j < 4 && i != j
    ensures Apart((i, 4 + i, 8 + i, 12 + i), (j, 4 + j, 8 + j, 12 + j))
  {
  }

  lemma DiagonalsApart(i: nat, j: nat)
    requires i < 4 && j < 4 && i != j
    ensures Apart((i, 4 + (i + 1) % 4, 8 + (i + 2) % 4, 12 + (i + 3) % 4),
                  (j, 4 + (j + 1) % 4, 8 + (j + 2) % 4, 12 + (j + 3) % 4))
  {
    TurnedApart(i, j, 1);
    TurnedApart(i, j, 2);
    TurnedApart(i, j, 3);
  }

  lemma TurnedApart(i: nat, j: nat, n: nat)
    requires i < 4 && j < 4 && i != j && n < 4
    ensures (i + n) % 4 != (j + n) % 4
  {
  }

  lemma LanesApart(i: nat, j: nat)
    requires i < 8 && j < 8 && (i < 4 <==> j < 4) && i != j
    ensures Apart(LANES[i], LANES[j])
  {
    if i < 4 {
      LaneForm(i);
      LaneForm(j);
      ColumnsApart(i, j);
    } else {
      LaneForm(i - 4);
      LaneForm(j - 4);
      DiagonalsApart(i - 4, j - 4);
    }
  }

  lemma PutApart(v: State, k: Lanes, l: Lanes, q: Quad)
    requires Apart(k, l)
    ensures Get(Put(v, l, q), k) == Get(v, k)
  {
  }

  /** The four words a mixing leaves in its own lane, from those it finds there. */
  function Mixed(mix: Mixing, q: Quad, m: State, s: seq<Index>, i: nat): Quad
    requires |s| == 16 && i < 8
  {
    mix(q, InputX(m, s, i), InputY(m, s, i))
  }

  /** Of the lanes of one half round a mixing changes only its own. */
  lemma GLane(mix: Mixing, v: State, m: State, s: seq<Index>, i: nat, j: nat)
    requires |s| == 16 && i < 8 && j < 8 && (i < 4 <==> j < 4)
    ensures Get(G(mix, v, m, s, j), LANES[i])
         == if i == j then Mixed(mix, Get(v, LANES[i]), m, s, i) else Get(v, LANES[i])
  {
    var r := Mixed(mix, Get(v, LANES[j]), m, s, j);
    if i == j {
      LanesDistinct(i);
      GetPut(v, LANES[i], r, r);
    } else {
      LanesApart(i, j);
      PutApart(v, LANES[i], LANES[j], r);
    }
  }

  /** Lane i after the first k mixings, when it holds q after the first b of them. */
  ghost predicate LaneAt(mix: Mixing, v: State, m: State, s: seq<Index>, i: nat, k: nat, q: Quad)
    requires |s| == 16 && i < 8 && k <= 8
  {
    Get(Round(mix, v, m, s, k), LANES[i]) == if k <= i then q else Mixed(mix, q, m, s, i)
  }

  lemma LaneNext(mix: Mixing, v: State, m: State, s: seq<Index>, i: nat, k: nat, q: Quad)
    requires |s| == 16 && i < 8 && k < 8 && (i < 4 <==> k < 4) && LaneAt(mix, v, m, s, i, k, q)
    ensures LaneAt(mix, v, m, s, i, k + 1, q)
  {
    GLane(mix, Round(mix, v, m, s, k), m, s, i, k);
  }

  /** From mixing b on, within a half round, lane i is unchanged up to its own mixing
      and then holds that mixing's result. */
  lemma {:induction false} LaneAfter(mix: Mixing, v: State, m: State, s: seq<Index>, b: nat, i: nat, k: nat, q: Quad)
    requires |s| == 16 && b in {0, 4} && b <= i < b + 4 && b <= k <= b + 4
    requires q == Get(Round(mix, v, m, s, b), LANES[i])
    ensures LaneAt(mix, v, m, s, i, k, q)
    decreases k
  {
    if k > b {
      LaneAfter(mix, v, m, s, b, i, k - 1, q);
      LaneNext(mix, v, m, s, i, k - 1, q);
    }
  }

  lemma SameWord(m: Word, m': Word, c: Word)
    requires Xor(m, c) == Xor(m', c)
    ensures m == m'
  {
    XorCancels(m, c);
    XorCancels(m', c);
  }

  /** Both blocks take the state to the same state with their first n mixings. */
  ghost predicate Same(v: State, m: State, m': State, s: seq<Index>, n: nat)
    requires |s| == 16 && n <= 8
  {
    Round(Mix, v, m, s, n) == Round(Mix, v, m', s, n)
  }

  /** Neither half of a round hides any of the eight message words its row names there:
      two blocks that take a state to one state before the half and to one after it
      agree on both words of each of its mixings. */
  lemma MixingShowsWords(v: State, m: State, m': State, s: seq<Index>, b: nat, i: nat)
    requires |s| == 16 && b in {0, 4} && b <= i < b + 4 && Same(v, m, m', s, b) && Same(v, m, m', s, b + 4)
    ensures m[s[2 * i]] == m'[s[2 * i]] && m[s[2 * i + 1]] == m'[s[2 * i + 1]]
  {
    var q := Get(Round(Mix, v, m, s, b), LANES[i]);
    LaneAfter(Mix, v, m, s, b, i, b + 4, q);
    LaneAfter(Mix, v, m', s, b, i, b + 4, q);
    MixDetermines(q, InputX(m, s, i), InputY(m, s, i), InputX(m', s, i), InputY(m', s, i));
    SameWord(m[s[2 * i]], m'[s[2 * i]], C512[s[2 * i + 1]]);
    SameWord(m[s[2 * i + 1]], m'[s[2 * i + 1]], C512[s[2 * i]]);
  }

  /** The same mixings with `unmix`, last first. */
  function RoundBack(unmix: Mixing, v: State, m: State, s: seq<Index>, k: nat): State
    requires |s| == 16 && k <= 8
    decreases k
  {
    if k == 0 then v else RoundBack(unmix, G(unmix, v, m, s, k - 1), m, s, k - 1)
  }

  lemma {:induction false} RoundInverse(mix: Mixing, unmix: Mixing, v: State, m: State, s: seq<Index>, k: nat)
    requires |s| == 16 && k <= 8 && Undoes(mix, unmix)
    ensures RoundBack(unmix, Round(mix, v, m, s, k), m, s, k) == v
    ensures Round(mix, RoundBack(unmix, v, m, s, k), m, s, k) == v
    decreases k
  {
    if k > 0 {
      GInverse(mix, unmix, Round(mix, v, m, s, k - 1), m, s, k - 1);
      RoundInverse(mix, unmix, v, m, s, k - 1);
      RoundInverse(mix, unmix, G(unmix, v, m, s, k - 1), m, s, k - 1);
      GInverse(unmix, mix, v, m, s, k - 1);
    }
  }

  function Row(r: nat): (s: seq<Index>)
    ensures |s| == 16
  {
    SIGMA[r % 10]
  }

  /** r numbered steps, and steps backwards from the r-th. */
  function Iterate(f: (State, nat) -> State, v: State, r: nat): State {
    if r == 0 then v else f(Iterate(f, v, r - 1), r - 1)
  }

  function IterateBack(f: (State, nat) -> State, v: State, r: nat): State
    decreases r
  {
    if r == 0 then v else IterateBack(f, f(v, r - 1), r - 1)
  }

  lemma {:induction false} IterateInverse(f: (State, nat) -> State, g: (State, nat) -> State, v: State, r: nat)
    requires Inverse2(f, g)
    ensures IterateBack(g, Iterate(f, v, r), r) == v && Iterate(f, IterateBack(g, v, r), r) == v
    decreases r
  {
    if r > 0 {
      IterateInverse(f, g, v, r - 1);
      IterateInverse(f, g, g(v, r - 1), r - 1);
    }
  }

  /** Round j uses SIGMA row j mod 10. */
  function RoundAt(mix: Mixing, m: State): (State, nat) -> State {
    (v, j) => Round(mix, v, m, Row(j), 8)
  }

  function RoundBackAt(unmix: Mixing, m: State): (State, nat) -> State {
    (v, j) => RoundBack(unmix, v, m, Row(j), 8)
  }

  function Rounds(mix: Mixing, v: State, m: State, r: nat): State {
    Iterate(RoundAt(mix, m), v, r)
  }

  function RoundsBack(unmix: Mixing, v: State, m: State, r: nat): State {
    IterateBack(RoundBackAt(unmix, m), v, r)
  }

  lemma RoundsInverse(mix: Mixing, unmix: Mixing, v: State, m: State, r: nat)
    requires Undoes(mix, unmix)
    ensures RoundsBack(unmix, Rounds(mix, v, m, r), m, r) == v
    ensures Rounds(mix, RoundsBack(unmix, v, m, r), m, r) == v
  {
    forall v: State, j: nat
      ensures RoundBack(unmix, Round(mix, v, m, Row(j), 8), m, Row(j), 8) == v
      ensures Round(mix, RoundBack(unmix, v, m, Row(j), 8), m, Row(j), 8) == v
    {
      RoundInverse(mix, unmix, v, m, Row(j), 8);
    }
    IterateInverse(RoundAt(mix, m), RoundBackAt(unmix, m), v, r);
  }

  /** For a fixed block the sixteen rounds are a bijection on states: running
      them backwards with the inverse mixing inverts them on both sides. */
  lemma SixteenRoundsBijective(v: State, m: State)
    ensures RoundsBack(Unmix, Rounds(Mix, v, m, 16), m, 16) == v
    ensures Rounds(Mix, RoundsBack(Unmix, v, m, 16), m, 16) == v
  {
    MixUndoes();
    RoundsInverse(Mix, Unmix, v, m, 16);
  }

  lemma MixUndoes()
    ensures Undoes(Mix, Unmix)
  {
    forall q: Quad, x: Word, y: Word ensures Unmix(Mix(q, x, y), x, y) == q && Mix(Unmix(q, x, y), x, y) == q {
      MixInverse(q, x, y);
    }
  }

  // ---- In place -----------------------------------------------------------------------

  function Half(q: Quad, x: Word, n: nat, k: nat): Quad
    requires n <= 64 && k <= 64
  {
    TurnB(AddD(TurnD(AddB(q, x), n)), k)
  }

  /** The assignments to the first and the last word of a half. */
  method FirstPair(v: array<Word>, l: Lanes, x: Word, n: nat)
    requires v.Length == 16 && Distinct(l) && n <= 64
    modifies v
    ensures v[..] == Put(old(v[..]), l, TurnD(AddB(Get(old(v[..]), l), x), n))
  {
    var (a, b, c, d) := l;
    ghost var v0: State := v[..];
    v[a] := U64(v[a] + v[b] + x);
    ghost var q1 := AddB(Get(v0, l), x);
    assert v[..] == v0[a := q1.a] && Get(v[..], l) == q1;
    v[d] := Rotr(Xor(v[d], v[a]), n);
  }

  /** The assignments to the third and the second word of a half. */
  method SecondPair(v: array<Word>, l: Lanes, k: nat)
    requires v.Length == 16 && Distinct(l) && k <= 64
    modifies v
    ensures v[..] == Put(old(v[..]), l, TurnB(AddD(Get(old(v[..]), l)), k))
  {
    var (a, b, c, d) := l;
    ghost var v0: State := v[..];
    var sum: int := v[c] as int + v[d] as int;
    v[c] := U64(sum);
    ghost var q1 := AddD(Get(v0, l));
    assert v[..] == v0[c := q1.c] && Get(v[..], l) == q1;
    v[b] := Rotr(Xor(v[b], v[c]), k);
  }

  /** Four of the eight assignments of `_G`, on the state array. */
  method HalfInPlace(v: array<Word>, l: Lanes, x: Word, n: nat, k: nat)
    requires v.Length == 16 && Distinct(l) && n <= 64 && k <= 64
    modifies v
    ensures v[..] == Put(old(v[..]), l, Half(Get(old(v[..]), l), x, n, k))
  {
    ghost var v0: State := v[..];
    ghost var q := TurnD(AddB(Get(v0, l), x), n);
    FirstPair(v, l, x, n);
    SecondPair(v, l, k);
    GetPut(v0, l, q, TurnB(AddD(q), k));
  }

  /** `_G`: the two halves with their own message input and rotations. */
  method MixInPlace(v: array<Word>, m: State, s: seq<Index>, i: nat)
    requires v.Length == 16 && |s| == 16 && i < 8
    modifies v
    ensures v[..] == G(Mix, old(v[..]), m, s, i)
  {
    var l := LANES[i];
    LanesDistinct(i);
    var e, f := s[2 * i], s[2 * i + 1];
    ghost var v0: State := v[..];
    HalfInPlace(v, l, Xor(m[e], C512[f]), 32, 25);
    ghost var v1: State := v[..];
    HalfInPlace(v, l, Xor(m[f], C512[e]), 16, 11);
    TwoHalves(v0, l, InputX(m, s, i), InputY(m, s, i), v1, v[..]);
  }

  lemma TwoHalves(v0: State, l: Lanes, x: Word, y: Word, v1: State, v2: State)
    requires Distinct(l)
    requires v1 == Put(v0, l, Half(Get(v0, l), x, 32, 25)) && v2 == Put(v1, l, Half(Get(v1, l), y, 16, 11))
    ensures v2 == Put(v0, l, Mix(Get(v0, l), x, y))
  {
    var q1 := Half(Get(v0, l), x, 32, 25);
    GetPut(v0, l, q1, Half(q1, y, 16, 11));
  }
}

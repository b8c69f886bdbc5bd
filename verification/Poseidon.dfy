/** The Poseidon permutation of poseidon.py, with its constant tables abstract. */
module Poseidon {
  import opened Base
  import opened Field
  import opened Fermat

  /** The modulus, the round constants and the matrix of each width. */
  datatype Tables = Tables(p: nat, C: seq<seq<int>>, M: seq<seq<seq<int>>>)

  const ROUNDS_F: nat := 8
  const ROUNDS_P: seq<nat> := [56, 57, 56, 60, 60, 63, 64, 63, 60, 66, 60, 65, 70, 60, 64, 68]

  /** Entry k serves k + 1 inputs, a state of width k + 2. */
  ghost predicate EntryOk(tb: Tables, k: nat)
    requires |tb.C| == 16 && |tb.M| == 16 && k < 16
  {
    |tb.C[k]| == (ROUNDS_F + ROUNDS_P[k]) * (k + 2) && Square(tb.M[k], k + 2)
  }

  /** Tables of the shape the loader builds: a constant per round and element, a square matrix. */
  ghost predicate WellFormed(tb: Tables) {
    tb.p > 1 && |tb.C| == 16 && |tb.M| == 16 && forall k :: 0 <= k < 16 ==> EntryOk(tb, k)
  }

  ghost predicate Square(m: seq<seq<int>>, t: nat) {
    |m| == t && forall i :: 0 <= i < t ==> |m[i]| == t
  }

  type State = seq<nat>

  ghost predicate Reduced(s: State, t: nat, p: nat) {
    |s| == t && forall i :: 0 <= i < t ==> s[i] < p
  }

  // ---- One round as a function ----------------------------------------------------------

  /** `_pow5`. */
  function Pow5(x: nat, p: nat): (r: nat)
    requires p > 0
    ensures r < p
  {
    var x2 := (x * x) % p;
    var x4 := (x2 * x2) % p;
    (x4 * x) % p
  }

  function AddConstants(s: State, cs: seq<int>, p: nat): (r: State)
    requires p > 0 && |cs| == |s|
    ensures |r| == |s| && forall i :: 0 <= i < |r| ==> r[i] < p
  {
    seq(|s|, i requires 0 <= i < |s| => (s[i] + cs[i]) % p)
  }

  function Sbox(s: State, full: bool, p: nat): (r: State)
    requires p > 0
    ensures |r| == |s|
  {
    seq(|s|, i requires 0 <= i < |s| => if full || i == 0 then Pow5(s[i], p) else s[i])
  }

  /** The first k terms of a row's dot product, reduced at every term. */
  function Dot(row: seq<int>, s: State, k: nat, p: nat): (r: nat)
    requires p > 0 && k <= |row| && k <= |s|
    ensures r < p
  {
    if k == 0 then 0 else (Dot(row, s, k - 1, p) + row[k - 1] * s[k - 1]) % p
  }

  function Mds(m: seq<seq<int>>, s: State, p: nat): (r: State)
    requires p > 0 && |m| == |s| && forall i :: 0 <= i < |m| ==> |m[i]| == |s|
    ensures |r| == |s|
  {
    seq(|s|, i requires 0 <= i < |s| => Dot(m[i], s, |s|, p))
  }

  /** Rounds 0 to 3 and the last four are full. */
  predicate Full(r: nat, partials: nat) {
    r < ROUNDS_F / 2 || r >= ROUNDS_F / 2 + partials
  }

  function Round(s: State, cs: seq<int>, m: seq<seq<int>>, full: bool, p: nat): (r: State)
    requires p > 0 && |cs| == |s| && |m| == |s| && forall i :: 0 <= i < |m| ==> |m[i]| == |s|
    ensures |r| == |s|
  {
    Mds(m, Sbox(AddConstants(s, cs, p), full, p), p)
  }

  /** The first r rounds. */
  function Permute(s: State, cs: seq<int>, m: seq<seq<int>>, partials: nat, r: nat, p: nat): (res: State)
    requires p > 0 && r * |s| <= |cs| && |m| == |s| && forall i :: 0 <= i < |m| ==> |m[i]| == |s|
    ensures |res| == |s|
  {
    if r == 0 then s
    else
      Slice(|s|, r - 1);
      Round(Permute(s, cs, m, partials, r - 1, p), cs[(r - 1) * |s|..r * |s|], m, Full(r - 1, partials), p)
  }

  lemma Slice(t: nat, r: nat)
    ensures 0 <= r * t <= (r + 1) * t && (r + 1) * t - r * t == t
  {
  }

  // ---- The hash --------------------------------------------------------------------------

  /** The initial state: the capacity element, then the inputs, reduced. */
  function Initial(inputs: seq<int>, initState: int, p: nat): (r: State)
    requires p > 0
    ensures |r| == |inputs| + 1
  {
    seq(|inputs| + 1, i requires 0 <= i <= |inputs| => if i == 0 then initState % p else inputs[i - 1] % p)
  }

  /** The state after all rounds. */
  function LastState(tb: Tables, inputs: seq<int>, initState: int): (r: State)
    requires WellFormed(tb) && 1 <= |inputs| <= 16
    ensures |r| == |inputs| + 1
  {
    var k := |inputs| - 1;
    assert EntryOk(tb, k);
    Permute(Initial(inputs, initState, tb.p), tb.C[k], tb.M[k], ROUNDS_P[k], ROUNDS_F + ROUNDS_P[k], tb.p)
  }

  function Hash(tb: Tables, inputs: seq<int>, initState: int): nat
    requires WellFormed(tb) && 1 <= |inputs| <= 16
  {
    LastState(tb, inputs, initState)[0]
  }

  /** `poseidon_hash`: ValueError for no input or more than 16. */
  method PoseidonHash(tb: Tables, inputs: seq<int>, initState: int) returns (h: Option<nat>)
    requires WellFormed(tb)
    ensures h.None? <==> |inputs| == 0 || |inputs| > 16
    ensures h.Some? ==> h.value == Hash(tb, inputs, initState)
  {
    var n := |inputs|;
    if n == 0 || n > |ROUNDS_P| {
      return None;
    }
    var t := n + 1;
    assert EntryOk(tb, t - 2);
    var state := Initial(inputs, initState, tb.p);
    state := Rounds(state, tb.C[t - 2], tb.M[t - 2], ROUNDS_P[t - 2], ROUNDS_F + ROUNDS_P[t - 2], tb.p);
    return Some(state[0]);
  }

  /** The round loop. */
  method Rounds(start: State, cs: seq<int>, m: seq<seq<int>>, partials: nat, total: nat, p: nat)
    returns (state: State)
    requires p > 0 && start != [] && total * |start| <= |cs| && Square(m, |start|)
    ensures state == Permute(start, cs, m, partials, total, p)
  {
    state := start;
    var t, r := |start|, 0;
    while r < total
      invariant r <= total && r * t <= |cs| && state == Permute(start, cs, m, partials, r, p)
    {
      RoundsFit(r, total, t);
      PermuteNext(start, cs, m, partials, r, p);
      state := OneRound(state, cs[r * t..(r + 1) * t], m, Full(r, partials), p);
      r := r + 1;
    }
  }

  method OneRound(state: State, cs: seq<int>, m: seq<seq<int>>, full: bool, p: nat) returns (out: State)
    requires p > 0 && state != [] && |cs| == |state| && Square(m, |state|)
    ensures out == Round(state, cs, m, full, p)
  {
    var added := AddRound(state, cs, p);
    var boxed := SboxRound(added, full, p);
    out := MixRound(boxed, m, p);
  }

  lemma PermuteNext(s: State, cs: seq<int>, m: seq<seq<int>>, partials: nat, r: nat, p: nat)
    requires p > 0 && (r + 1) * |s| <= |cs| && Square(m, |s|)
    ensures 0 <= r * |s| <= (r + 1) * |s| && (r + 1) * |s| - r * |s| == |s|
    ensures Permute(s, cs, m, partials, r + 1, p)
         == Round(Permute(s, cs, m, partials, r, p), cs[r * |s|..(r + 1) * |s|], m, Full(r, partials), p)
  {
    Slice(|s|, r);
  }

  lemma RoundsFit(r: nat, total: nat, t: nat)
    requires r < total
    ensures (r + 1) * t <= total * t
  {
    MulLe(r + 1, total, t);
  }

  /** The constant-adding loop. */
  method AddRound(state: State, cs: seq<int>, p: nat) returns (out: State)
    requires p > 0 && |cs| == |state|
    ensures out == AddConstants(state, cs, p)
  {
    out := state;
    var i := 0;
    while i < |state|
      invariant i <= |state| == |out|
      invariant forall j :: 0 <= j < i ==> out[j] == (state[j] + cs[j]) % p
      invariant forall j :: i <= j < |out| ==> out[j] == state[j]
    {
      out := out[i := (out[i] + cs[i]) % p];
      i := i + 1;
    }
  }

  /** The S-box on every element of a full round, on the first of a partial one. */
  method SboxRound(state: State, full: bool, p: nat) returns (out: State)
    requires p > 0 && |state| > 0
    ensures out == Sbox(state, full, p)
  {
    out := state;
    if full {
      var i := 0;
      while i < |state|
        invariant i <= |state| == |out|
        invariant forall j :: 0 <= j < i ==> out[j] == Pow5(state[j], p)
        invariant forall j :: i <= j < |out| ==> out[j] == state[j]
      {
        out := out[i := Pow5(out[i], p)];
        i := i + 1;
      }
    } else {
      out := out[0 := Pow5(out[0], p)];
    }
  }

  lemma DotNext(row: seq<int>, s: State, k: nat, p: nat)
    requires p > 0 && 0 < k <= |row| && k <= |s|
    ensures Dot(row, s, k, p) == (Dot(row, s, k - 1, p) + row[k - 1] * s[k - 1]) % p
  {
  }

  /** The inner loop of the matrix product. */
  method DotLoop(row: seq<int>, state: State, p: nat) returns (acc: nat)
    requires p > 0 && |row| == |state|
    ensures acc == Dot(row, state, |state|, p)
  {
    acc := 0;
    var j := 0;
    while j < |state|
      invariant j <= |state| && acc == Dot(row, state, j, p)
    {
      DotNext(row, state, j + 1, p);
      acc := (acc + row[j] * state[j]) % p;
      j := j + 1;
    }
  }

  /** The matrix product. */
  method MixRound(state: State, m: seq<seq<int>>, p: nat) returns (out: State)
    requires p > 0 && |m| == |state| && forall i :: 0 <= i < |m| ==> |m[i]| == |state|
    ensures out == Mds(m, state, p)
  {
    out := seq(|state|, i => 0);
    var i := 0;
    while i < |state|
      invariant i <= |state| == |out|
      invariant forall j :: 0 <= j < i ==> out[j] == Dot(m[j], state, |state|, p)
    {
      var acc := DotLoop(m[i], state, p);
      out := out[i := acc];
      i := i + 1;
    }
  }

  /** The hash depends only on the inputs' residues. */
  lemma HashOfResidues(tb: Tables, a: seq<int>, b: seq<int>, initState: int)
    requires WellFormed(tb) && 1 <= |a| == |b| <= 16
    requires forall i :: 0 <= i < |a| ==> a[i] % tb.p == b[i] % tb.p
    ensures Hash(tb, a, initState) == Hash(tb, b, initState)
  {
    assert Initial(a, initState, tb.p) == Initial(b, initState, tb.p);
  }

  // ---- The three phases ---------------------------------------------------------------------

  /** k rounds of one kind, starting with the constants of round `first`. */
  function Phase(s: State, cs: seq<int>, m: seq<seq<int>>, full: bool, first: nat, k: nat, p: nat): (r: State)
    requires p > 0 && (first + k) * |s| <= |cs| && Square(m, |s|)
    ensures |r| == |s|
    decreases k
  {
    if k == 0 then s
    else
      Slice(|s|, first + k - 1);
      var cs' := cs[(first + k - 1) * |s|..(first + k) * |s|];
      Round(Phase(s, cs, m, full, first, k - 1, p), cs', m, full, p)
  }

  /** Rounds of one kind continue the permutation as a phase. */
  lemma {:induction false} RoundsArePhase(s: State, cs: seq<int>, m: seq<seq<int>>, partials: nat, full: bool,
                                          first: nat, k: nat, p: nat, at: State)
    requires p > 0 && (first + k) * |s| <= |cs| && Square(m, |s|)
    requires first * |s| <= |cs| && at == Permute(s, cs, m, partials, first, p)
    requires forall r :: first <= r < first + k ==> Full(r, partials) == full
    ensures Permute(s, cs, m, partials, first + k, p) == Phase(at, cs, m, full, first, k, p)
    decreases k
  {
    if k > 0 {
      Slice(|s|, first + k - 1);
      RoundsArePhase(s, cs, m, partials, full, first, k - 1, p, at);
      PermuteNext(s, cs, m, partials, first + k - 1, p);
    }
  }

  lemma PhasesFit(t: nat, partials: nat)
    ensures 4 * t <= (4 + partials) * t <= (8 + partials) * t
  {
    MulLe(4, 4 + partials, t);
    MulLe(4 + partials, 8 + partials, t);
  }

  /** The permutation is four full rounds, the partial ones, and four full rounds. */
  lemma ThreePhases(s: State, cs: seq<int>, m: seq<seq<int>>, partials: nat, p: nat)
    requires p > 0 && (ROUNDS_F + partials) * |s| <= |cs| && Square(m, |s|)
    ensures 4 * |s| <= (4 + partials) * |s| <= |cs|
    ensures var first := Phase(s, cs, m, true, 0, 4, p);
      var mixed := Phase(first, cs, m, false, 4, partials, p);
      Permute(s, cs, m, partials, ROUNDS_F + partials, p) == Phase(mixed, cs, m, true, 4 + partials, 4, p)
  {
    PhasesFit(|s|, partials);
    PhasesJoin(s, cs, m, partials, ROUNDS_F / 2, p);
  }

  lemma PhasesJoin(s: State, cs: seq<int>, m: seq<seq<int>>, partials: nat, h: nat, p: nat)
    requires p > 0 && h == ROUNDS_F / 2 && Square(m, |s|)
    requires h * |s| <= (h + partials) * |s| <= (h + partials + h) * |s| <= |cs|
    ensures var first := Phase(s, cs, m, true, 0, h, p);
      var mixed := Phase(first, cs, m, false, h, partials, p);
      Permute(s, cs, m, partials, h + partials + h, p) == Phase(mixed, cs, m, true, h + partials, h, p)
  {
    RoundsArePhase(s, cs, m, partials, true, 0, h, p, s);
    var a := Permute(s, cs, m, partials, h, p);
    RoundsArePhase(s, cs, m, partials, false, h, partials, p, a);
    var b := Permute(s, cs, m, partials, h + partials, p);
    RoundsArePhase(s, cs, m, partials, true, h + partials, h, p, b);
  }

  // ---- The permutation is injective -------------------------------------------------------

  /** `_pow5` is the fifth power mod p. */
  lemma Pow5IsFifthPower(x: nat, p: nat)
    requires p > 0
    ensures Cong(p, Pow5(x, p), Pow(x, 5))
  {
    var x2 := (x * x) % p;
    var x4 := (x2 * x2) % p;
    CongMod(p, x * x);
    CongMul(p, x2, x * x, x2, x * x);
    CongMod(p, x2 * x2);
    CongMul(p, x4, (x * x) * (x * x), x, x);
    CongMod(p, x4 * x);
    FifthPower(x);
  }

  lemma FifthPower(x: int)
    ensures Pow(x, 5) == (x * x) * (x * x) * x
  {
    var p1, p2, p3, p4 := Pow(x, 1), Pow(x, 2), Pow(x, 3), Pow(x, 4);
    assert Pow(x, 0) == 1;
    assert p1 == x * Pow(x, 0) && p2 == x * p1 && p3 == x * p2 && p4 == x * p3 && Pow(x, 5) == x * p4;
    assert x * (x * (x * (x * x))) == (x * x) * (x * x) * x;
  }

  /** e inverts the fifth power on residues. */
  ghost predicate FifthRoot(p: nat, e: nat)
    requires p > 0
  {
    forall x: nat :: x < p ==> Cong(p, Pow(x, 5 * e), x)
  }

  /** By Fermat's little theorem it does when 5*e is 1 mod p - 1. */
  lemma InverseExponent(p: nat, e: nat, m: nat)
    requires Prime(p) && 5 * e == (p - 1) * m + 1
    ensures FifthRoot(p, e)
  {
    forall x: nat | x < p ensures Cong(p, Pow(x, 5 * e), x) {
      PowerIsIdentity(p, x, 5 * e, m);
    }
  }

  /** The exponent at the source's prime. */
  const INVERSE_5: nat := 17510594297471420177797124596205820070838691520332827474958563349260646796493

  lemma SboxAtTheSourcesPrime(x: nat, y: nat)
    requires Prime(Base.PRIME) && x < Base.PRIME && y < Base.PRIME && Pow5(x, Base.PRIME) == Pow5(y, Base.PRIME)
    ensures x == y
  {
    InverseExponent(Base.PRIME, INVERSE_5, 4);
    SboxInjective(Base.PRIME, INVERSE_5, x, y);
  }

  lemma SboxInjective(p: nat, e: nat, x: nat, y: nat)
    requires p > 0 && FifthRoot(p, e) && x < p && y < p && Pow5(x, p) == Pow5(y, p)
    ensures x == y
  {
    Pow5IsFifthPower(x, p);
    Pow5IsFifthPower(y, p);
    PowCong(p, Pow(x, 5), Pow(y, 5), e);
    PowProduct(x, 5, e);
    PowProduct(y, 5, e);
    assert Cong(p, Pow(x, 5 * e), x) && Cong(p, Pow(y, 5 * e), y);
    CongEqual(p, x, y);
  }

  /** The matrix is injective on reduced states. */
  ghost predicate MdsInjective(m: seq<seq<int>>, t: nat, p: nat)
    requires p > 0 && Square(m, t)
  {
    forall s, u :: Reduced(s, t, p) && Reduced(u, t, p) && Mds(m, s, p) == Mds(m, u, p) ==> s == u
  }

  // ---- A matrix with an inverse --------------------------------------------------------------

  /** The dot product over the integers. */
  function Sum(row: seq<int>, s: seq<int>, k: nat): int
    requires k <= |row| && k <= |s|
  {
    if k == 0 then 0 else Sum(row, s, k - 1) + row[k - 1] * s[k - 1]
  }

  lemma {:induction false} DotIsSum(row: seq<int>, s: State, k: nat, p: nat)
    requires p > 0 && k <= |row| && k <= |s|
    ensures Cong(p, Dot(row, s, k, p), Sum(row, s, k))
  {
    if k > 0 {
      DotIsSum(row, s, k - 1, p);
      var term := row[k - 1] * s[k - 1];
      DotNext(row, s, k, p);
      CongAdd(p, Dot(row, s, k - 1, p), Sum(row, s, k - 1), term, term);
      CongMod(p, Dot(row, s, k - 1, p) + term);
    }
  }

  function PlusTimes(a: seq<int>, c: int, b: seq<int>): (r: seq<int>)
    requires |a| == |b|
    ensures |r| == |a|
  {
    seq(|a|, j requires 0 <= j < |a| => a[j] + c * b[j])
  }

  /** The combination of the first k rows of m with the given coefficients. */
  function Combined(cs: seq<int>, m: seq<seq<int>>, t: nat, k: nat): (r: seq<int>)
    requires k <= |cs| && k <= |m| && forall i :: 0 <= i < |m| ==> |m[i]| == t
    ensures |r| == t
  {
    if k == 0 then seq(t, j => 0) else PlusTimes(Combined(cs, m, t, k - 1), cs[k - 1], m[k - 1])
  }

  lemma {:induction false} SumLinear(a: seq<int>, c: int, b: seq<int>, s: seq<int>, k: nat)
    requires |a| == |b| && k <= |a| && k <= |s|
    ensures Sum(PlusTimes(a, c, b), s, k) == Sum(a, s, k) + c * Sum(b, s, k)
  {
    if k > 0 {
      SumLinear(a, c, b, s, k - 1);
      var v := PlusTimes(a, c, b)[k - 1];
      LinearTerm(v, a[k - 1], c, b[k - 1], s[k - 1], Sum(a, s, k - 1), Sum(b, s, k - 1));
    } else {
      assert c * 0 == 0;
    }
  }

  lemma LinearTerm(v: int, a: int, c: int, b: int, s: int, x: int, y: int)
    requires v == a + c * b
    ensures x + c * y + v * s == (x + a * s) + c * (y + b * s)
  {
    assert (c * b) * s == c * (b * s);
    assert v * s == a * s + (c * b) * s;
    assert c * (y + b * s) == c * y + c * (b * s);
  }

  lemma {:induction false} SumZero(a: seq<int>, s: seq<int>, k: nat)
    requires k <= |a| && k <= |s| && forall j :: 0 <= j < k ==> a[j] == 0
    ensures Sum(a, s, k) == 0
  {
    if k > 0 {
      SumZero(a, s, k - 1);
      assert 0 * s[k - 1] == 0;
    }
  }

  /** Images of two states that agree mod p under every row agree under every
      combination of rows. */
  lemma {:induction false} CombinedAgree(cs: seq<int>, m: seq<seq<int>>, s: State, u: State, t: nat, k: nat, p: nat)
    requires p > 0 && Square(m, t) && |cs| == |s| == |u| == t && k <= t
    requires forall i {:trigger m[i]} :: 0 <= i < t ==> Cong(p, Sum(m[i], s, t), Sum(m[i], u, t))
    ensures Cong(p, Sum(Combined(cs, m, t, k), s, t), Sum(Combined(cs, m, t, k), u, t))
  {
    if k == 0 {
      SumZero(Combined(cs, m, t, 0), s, t);
      SumZero(Combined(cs, m, t, 0), u, t);
    } else {
      var a, c, b := Combined(cs, m, t, k - 1), cs[k - 1], m[k - 1];
      CombinedAgree(cs, m, s, u, t, k - 1, p);
      SumLinear(a, c, b, s, t);
      SumLinear(a, c, b, u, t);
      CongMul(p, c, c, Sum(b, s, t), Sum(b, u, t));
      CongAdd(p, Sum(a, s, t), Sum(a, u, t), c * Sum(b, s, t), c * Sum(b, u, t));
    }
  }

  /** A row congruent to the unit vector picks its element. */
  lemma {:induction false} UnitPicks(a: seq<int>, s: State, r: nat, k: nat, p: nat)
    requires p > 0 && k <= |a| && k <= |s|
    requires forall j :: 0 <= j < k ==> Cong(p, a[j], if j == r then 1 else 0)
    ensures Cong(p, Sum(a, s, k), if r < k then s[r] else 0)
  {
    if k > 0 {
      var n, unit := k - 1, if k - 1 == r then 1 else 0;
      UnitPicks(a, s, r, n, p);
      CongMul(p, a[n], unit, s[n], s[n]);
      CongAdd(p, Sum(a, s, n), if r < n then s[r] else 0, a[n] * s[n], unit * s[n]);
    }
  }

  /** n times m is the identity mod p. */
  ghost predicate InverseMatrix(n: seq<seq<int>>, m: seq<seq<int>>, t: nat, p: nat)
    requires p > 0
  {
    Square(n, t) && Square(m, t) && forall r :: 0 <= r < t ==> UnitRow(Combined(n[r], m, t, t), r, p)
  }

  ghost predicate UnitRow(a: seq<int>, r: nat, p: nat)
    requires p > 0
  {
    forall j :: 0 <= j < |a| ==> Cong(p, a[j], if j == r then 1 else 0)
  }

  /** A matrix with an inverse is injective on reduced states. */
  lemma InverseGivesInjective(n: seq<seq<int>>, m: seq<seq<int>>, t: nat, p: nat)
    requires p > 0 && InverseMatrix(n, m, t, p)
    ensures MdsInjective(m, t, p)
  {
    forall s: State, u: State | Reduced(s, t, p) && Reduced(u, t, p) && Mds(m, s, p) == Mds(m, u, p) ensures s == u {
      forall i | 0 <= i < t ensures Cong(p, Sum(m[i], s, t), Sum(m[i], u, t)) {
        assert Mds(m, s, p)[i] == Mds(m, u, p)[i];
        DotIsSum(m[i], s, t, p);
        DotIsSum(m[i], u, t, p);
      }
      forall r | 0 <= r < t ensures s[r] == u[r] {
        var row := Combined(n[r], m, t, t);
        assert UnitRow(row, r, p);
        CombinedAgree(n[r], m, s, u, t, t, p);
        UnitPicks(row, s, r, t, p);
        UnitPicks(row, u, r, t, p);
        CongEqual(p, s[r], u[r]);
      }
    }
  }

  // ---- The layers and the rounds -----------------------------------------------------------

  lemma AddConstantsInjective(s: State, u: State, cs: seq<int>, t: nat, p: nat)
    requires p > 0 && Reduced(s, t, p) && Reduced(u, t, p) && |cs| == t
    requires AddConstants(s, cs, p) == AddConstants(u, cs, p)
    ensures s == u
  {
    forall i | 0 <= i < t ensures s[i] == u[i] {
      assert AddConstants(s, cs, p)[i] == AddConstants(u, cs, p)[i];
      CongAdd(p, s[i] + cs[i], u[i] + cs[i], cs[i], cs[i]);
      CongEqual(p, s[i], u[i]);
    }
  }

  lemma SboxLayerInjective(s: State, u: State, full: bool, t: nat, p: nat, e: nat)
    requires p > 0 && Reduced(s, t, p) && Reduced(u, t, p) && FifthRoot(p, e)
    requires Sbox(s, full, p) == Sbox(u, full, p)
    ensures s == u
  {
    forall i | 0 <= i < t ensures s[i] == u[i] {
      assert Sbox(s, full, p)[i] == Sbox(u, full, p)[i];
      if full || i == 0 {
        SboxInjective(p, e, s[i], u[i]);
      }
    }
  }

  lemma RoundInjective(s: State, u: State, cs: seq<int>, m: seq<seq<int>>, full: bool, t: nat, p: nat, e: nat)
    requires p > 0 && Reduced(s, t, p) && Reduced(u, t, p) && |cs| == t && Square(m, t)
    requires FifthRoot(p, e) && MdsInjective(m, t, p)
    requires Round(s, cs, m, full, p) == Round(u, cs, m, full, p)
    ensures s == u
  {
    var a, b := AddConstants(s, cs, p), AddConstants(u, cs, p);
    var c, d := Sbox(a, full, p), Sbox(b, full, p);
    assert Reduced(c, t, p) && Reduced(d, t, p);
    SboxLayerInjective(a, b, full, t, p, e);
    AddConstantsInjective(s, u, cs, t, p);
  }

  function Minus(s: seq<int>, u: seq<int>): (r: seq<int>)
    requires |s| == |u|
    ensures |r| == |s|
  {
    seq(|s|, i requires 0 <= i < |s| => s[i] - u[i])
  }

  lemma {:induction false} SumOfDifferences(row: seq<int>, a: seq<int>, b: seq<int>, x: seq<int>, k: nat, p: nat)
    requires p > 0 && |a| == |b| == |x| && k <= |row| && k <= |a|
    requires forall j :: 0 <= j < k ==> Cong(p, Minus(a, b)[j], x[j])
    ensures Cong(p, Sum(row, a, k) - Sum(row, b, k), Sum(row, x, k))
  {
    if k > 0 {
      var n := k - 1;
      SumOfDifferences(row, a, b, x, n, p);
      assert Cong(p, Minus(a, b)[n], x[n]);
      CongMul(p, row[n], row[n], a[n] - b[n], x[n]);
      assert row[n] * (a[n] - b[n]) == row[n] * a[n] - row[n] * b[n];
      CongAdd(p, Sum(row, a, n) - Sum(row, b, n), Sum(row, x, n), row[n] * a[n] - row[n] * b[n], row[n] * x[n]);
    }
  }

  /** After constants and S-box of a partial round, states with one first element
      differ as they did before. */
  lemma PartialSbox(s: State, u: State, cs: seq<int>, p: nat, j: nat)
    requires p > 0 && |s| == |u| == |cs| && j < |s| && s[0] == u[0]
    ensures var a, b := Sbox(AddConstants(s, cs, p), false, p), Sbox(AddConstants(u, cs, p), false, p);
      Cong(p, Minus(a, b)[j], Minus(s, u)[j])
  {
    if j > 0 {
      var x, y: int := s[j] + cs[j], u[j] + cs[j];
      CongMod(p, x);
      CongMod(p, y);
      CongAdd(p, x % p, x, y % p, y);
    }
  }

  lemma RoundElement(s: State, cs: seq<int>, m: seq<seq<int>>, full: bool, p: nat, i: nat, a: State)
    requires p > 0 && |cs| == |s| && Square(m, |s|) && i < |s| && a == Sbox(AddConstants(s, cs, p), full, p)
    ensures Round(s, cs, m, full, p)[i] < p && Cong(p, Round(s, cs, m, full, p)[i], Sum(m[i], a, |s|))
  {
    DotIsSum(m[i], a, |s|, p);
  }

  /** A partial round bends only its first element: on states that share it, element i
      of the results differs by row i of the matrix times the states' difference. */
  lemma PartialRoundAffine(s: State, u: State, cs: seq<int>, m: seq<seq<int>>, p: nat, i: nat)
    requires p > 0 && |s| == |u| == |cs| && Square(m, |s|) && i < |s| && s[0] == u[0]
    ensures Cong(p, Minus(Round(s, cs, m, false, p), Round(u, cs, m, false, p))[i], Sum(m[i], Minus(s, u), |s|))
  {
    var t := |s|;
    var a, b := Sbox(AddConstants(s, cs, p), false, p), Sbox(AddConstants(u, cs, p), false, p);
    forall j | 0 <= j < t ensures Cong(p, Minus(a, b)[j], Minus(s, u)[j]) {
      PartialSbox(s, u, cs, p, j);
    }
    RoundElement(s, cs, m, false, p, i, a);
    RoundElement(u, cs, m, false, p, i, b);
    DifferencesMeet(Round(s, cs, m, false, p), Round(u, cs, m, false, p), m[i], a, b, Minus(s, u), i, p);
  }

  lemma CongDifference(p: nat, x: int, y: int, a: int, b: int, d: int)
    requires p > 0 && Cong(p, x, a) && Cong(p, y, b) && Cong(p, a - b, d)
    ensures Cong(p, x - y, d)
  {
    CongAdd(p, x, a, y, b);
  }

  lemma DifferencesMeet(x: State, y: State, row: seq<int>, a: State, b: State, d: seq<int>, i: nat, p: nat)
    requires p > 0 && |x| == |y| == |a| == |b| == |d| == |row| && i < |x|
    requires Cong(p, x[i], Sum(row, a, |a|)) && Cong(p, y[i], Sum(row, b, |b|))
    requires forall j :: 0 <= j < |a| ==> Cong(p, Minus(a, b)[j], d[j])
    ensures Cong(p, Minus(x, y)[i], Sum(row, d, |d|))
  {
    SumOfDifferences(row, a, b, d, |d|, p);
    CongDifference(p, x[i], y[i], Sum(row, a, |a|), Sum(row, b, |b|), Sum(row, d, |d|));
  }

  lemma {:induction false} PermuteReduced(s: State, cs: seq<int>, m: seq<seq<int>>, partials: nat,
                                          r: nat, t: nat, p: nat)
    requires p > 0 && Reduced(s, t, p) && r * t <= |cs| && Square(m, t)
    ensures Reduced(Permute(s, cs, m, partials, r, p), t, p)
  {
    if r > 0 {
      Slice(t, r - 1);
    }
  }

  lemma PermuteUnfold(s: State, cs: seq<int>, m: seq<seq<int>>, partials: nat, r: nat, t: nat, p: nat)
    returns (before: State, k: seq<int>)
    requires p > 0 && Reduced(s, t, p) && 0 < r && r * t <= |cs| && Square(m, t)
    ensures (r - 1) * t >= 0 && (r - 1) * t + t == r * t && k == cs[(r - 1) * t..r * t] && |k| == t
    ensures before == Permute(s, cs, m, partials, r - 1, p) && Reduced(before, t, p)
    ensures Permute(s, cs, m, partials, r, p) == Round(before, k, m, Full(r - 1, partials), p)
  {
    Slice(t, r - 1);
    k := cs[(r - 1) * t..r * t];
    before := Permute(s, cs, m, partials, r - 1, p);
    PermuteReduced(s, cs, m, partials, r - 1, t, p);
  }

  /** Two reduced states that are one after `r` rounds. */
  ghost predicate Meet(s: State, u: State, cs: seq<int>, m: seq<seq<int>>, partials: nat, r: nat, t: nat, p: nat) {
    && p > 0 && Reduced(s, t, p) && Reduced(u, t, p) && r * t <= |cs| && Square(m, t)
    && Permute(s, cs, m, partials, r, p) == Permute(u, cs, m, partials, r, p)
  }

  lemma MeetEarlier(s: State, u: State, cs: seq<int>, m: seq<seq<int>>, partials: nat, r: nat, t: nat, p: nat, e: nat)
    requires 0 < r && Meet(s, u, cs, m, partials, r, t, p) && FifthRoot(p, e) && MdsInjective(m, t, p)
    ensures Meet(s, u, cs, m, partials, r - 1, t, p)
  {
    var a, k := PermuteUnfold(s, cs, m, partials, r, t, p);
    var b, _ := PermuteUnfold(u, cs, m, partials, r, t, p);
    RoundInjective(a, b, k, m, Full(r - 1, partials), t, p, e);
  }

  lemma {:induction false} MeetAtStart(s: State, u: State, cs: seq<int>, m: seq<seq<int>>, partials: nat,
                                       r: nat, t: nat, p: nat, e: nat)
    requires Meet(s, u, cs, m, partials, r, t, p) && FifthRoot(p, e) && MdsInjective(m, t, p)
    ensures Meet(s, u, cs, m, partials, 0, t, p)
    decreases r
  {
    if r > 0 {
      MeetEarlier(s, u, cs, m, partials, r, t, p, e);
      MeetAtStart(s, u, cs, m, partials, r - 1, t, p, e);
    }
  }

  /** Different reduced states stay different through any number of rounds: the
      hash can collide only in what it discards of the last state. */
  lemma PermuteInjective(s: State, u: State, cs: seq<int>, m: seq<seq<int>>, partials: nat,
                         r: nat, t: nat, p: nat, e: nat)
    requires p > 0 && Reduced(s, t, p) && Reduced(u, t, p) && r * t <= |cs| && Square(m, t)
    requires FifthRoot(p, e) && MdsInjective(m, t, p)
    requires Permute(s, cs, m, partials, r, p) == Permute(u, cs, m, partials, r, p)
    ensures s == u
  {
    MeetAtStart(s, u, cs, m, partials, r, t, p, e);
  }

  /** Over a prime field, with 5*e = 1 mod p - 1 and an inverse of the matrix, the
      whole permutation is injective. */
  lemma FieldPermutationInjective(s: State, u: State, cs: seq<int>, m: seq<seq<int>>, n: seq<seq<int>>, partials: nat,
                                  r: nat, t: nat, p: nat, e: nat, q: nat)
    requires Prime(p) && 5 * e == (p - 1) * q + 1 && InverseMatrix(n, m, t, p)
    requires Reduced(s, t, p) && Reduced(u, t, p) && r * t <= |cs|
    requires Permute(s, cs, m, partials, r, p) == Permute(u, cs, m, partials, r, p)
    ensures s == u
  {
    InverseExponent(p, e, q);
    InverseGivesInjective(n, m, t, p);
    PermuteInjective(s, u, cs, m, partials, r, t, p, e);
  }

  lemma InitialDetermines(a: seq<int>, i: int, b: seq<int>, j: int, p: nat)
    requires p > 0 && |a| == |b| && Initial(a, i, p) == Initial(b, j, p)
    ensures i % p == j % p && forall k :: 0 <= k < |a| ==> a[k] % p == b[k] % p
  {
    assert Initial(a, i, p)[0] == Initial(b, j, p)[0];
    forall k | 0 <= k < |a| ensures a[k] % p == b[k] % p {
      assert Initial(a, i, p)[k + 1] == Initial(b, j, p)[k + 1];
    }
  }

  /** Over such a field two input lists with one last state are the same list modulo
      p, capacity element included: the hash loses only what follows element 0. */
  lemma LastStateDetermines(tb: Tables, a: seq<int>, i: int, b: seq<int>, j: int, n: seq<seq<int>>, e: nat, q: nat)
    requires WellFormed(tb) && 1 <= |a| == |b| <= 16 && LastState(tb, a, i) == LastState(tb, b, j)
    requires Prime(tb.p) && 5 * e == (tb.p - 1) * q + 1
    requires InverseMatrix(n, tb.M[|a| - 1], |a| + 1, tb.p)
    ensures i % tb.p == j % tb.p && forall k :: 0 <= k < |a| ==> a[k] % tb.p == b[k] % tb.p
  {
    var k, t := |a| - 1, |a| + 1;
    assert EntryOk(tb, k);
    var s, u := Initial(a, i, tb.p), Initial(b, j, tb.p);
    assert Reduced(s, t, tb.p) && Reduced(u, t, tb.p);
    FieldPermutationInjective(s, u, tb.C[k], tb.M[k], n, ROUNDS_P[k], ROUNDS_F + ROUNDS_P[k], t, tb.p, e, q);
    InitialDetermines(a, i, b, j, tb.p);
  }

  lemma SevenIsPrime()
    ensures Prime(7)
  {
    forall k | 2 <= k < 7 ensures 7 % k != 0 {
      assert k == 2 || k == 3 || k == 4 || k == 5 || k == 6;
    }
  }

  /** A row (c, d) times the matrix 2 1 / 1 1. */
  lemma RowTimes(row: seq<int>, m: seq<seq<int>>)
    requires |row| == 2 && m == [[2, 1], [1, 1]]
    ensures Combined(row, m, 2, 2) == [2 * row[0] + row[1], row[0] + row[1]]
  {
    assert Combined(row, m, 2, 0) == [0, 0];
    assert Combined(row, m, 2, 1) == [2 * row[0], row[0]];
  }

  lemma SevenInverse()
    ensures InverseMatrix([[1, -1], [-1, 2]], [[2, 1], [1, 1]], 2, 7)
  {
    var n, m := [[1, -1], [-1, 2]], [[2, 1], [1, 1]];
    RowTimes(n[0], m);
    RowTimes(n[1], m);
    assert Combined(n[0], m, 2, 2) == [1, 0] && Combined(n[1], m, 2, 2) == [0, 1];
  }

  lemma SevenMix()
    ensures Mds([[2, 1], [1, 1]], [1, 0], 7) == [2, 1]
  {
    var m, s: State := [[2, 1], [1, 1]], [1, 0];
    assert Dot(m[0], s, 0, 7) == 0 && Dot(m[0], s, 1, 7) == 2 && Dot(m[0], s, 2, 7) == 2;
    assert Dot(m[1], s, 0, 7) == 0 && Dot(m[1], s, 1, 7) == 1 && Dot(m[1], s, 2, 7) == 1;
  }

  /** The hypotheses hold together where both layers act: modulus 7, exponent 5, the
      matrix 2 1 / 1 1 with inverse 1 -1 / -1 2. */
  lemma HypothesesSatisfiable()
    ensures Prime(7) && 5 * 5 == (7 - 1) * 4 + 1 && InverseMatrix([[1, -1], [-1, 2]], [[2, 1], [1, 1]], 2, 7)
    ensures Pow5(3, 7) == 5 && Mds([[2, 1], [1, 1]], [1, 0], 7) == [2, 1]
  {
    SevenIsPrime();
    SevenInverse();
    SevenMix();
  }
}

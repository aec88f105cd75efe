/** The factoriser of the handshake: Pollard's rho with Floyd's cycle search, on 64-bit words. */
module Factoring {
  import opened Outcomes
  import opened Bytes
  import opened NumberTheory

  const WORD: nat := 0x1_0000_0000_0000_0000
  const TRIES: nat := 32
  const STEPS: nat := 200_000

  // ----- the walk -------------------------------------------------------------------------------

  function AddWords(a: u64, b: u64): u64 {
    (a + b) % WORD
  }

  function MulMod(a: u64, b: u64, n: u64): u64
    requires n > 0
  {
    a * b % n
  }

  function Next(n: u64, c: u64, x: u64): (r: u64)
    requires n > 0
    ensures r < n
  {
    AddWords(MulMod(x, x, n), c) % n
  }

  function Walk(n: u64, c: u64, start: u64, k: nat): u64
    requires n > 0
  {
    if k == 0 then start else Next(n, c, Walk(n, c, start, k - 1))
  }

  function Distance(a: nat, b: nat): nat {
    if a < b then b - a else a - b
  }

  // What the k-th step of the search compares: tortoise and hare after k and 2k moves.
  function DivisorAt(n: u64, c: u64, start: u64, k: nat): nat
    requires n > 0
  {
    Gcd(Distance(Walk(n, c, start, k), Walk(n, c, start, 2 * k)), n)
  }

  // The outcome of a search: the first step whose divisor exceeds one, or one if no step has that.
  ghost predicate Outcome(n: u64, c: u64, start: u64, d: nat)
    requires n > 0
  {
    || (d == 1 && forall k :: 1 <= k <= STEPS ==> DivisorAt(n, c, start, k) == 1)
    || (d > 1 && exists k :: 1 <= k <= STEPS && d == DivisorAt(n, c, start, k)
                             && forall j :: 1 <= j < k ==> DivisorAt(n, c, start, j) == 1)
  }

  method ComputeGcd(a: u64, b: u64) returns (r: u64)
    ensures r == Gcd(a, b)
  {
    var x, y := a, b;
    while y != 0
      invariant Gcd(x, y) == Gcd(a, b)
      decreases y
    {
      x, y := y, x % y;
    }
    return x;
  }

  method Search(n: u64, c: u64, start: u64) returns (d: u64)
    requires n > 0
    ensures Outcome(n, c, start, d)
    ensures Divides(d, n)
  {
    hide Gcd, Next, DivisorAt, Outcome;
    var x, y := start, start;
    var k := 0;
    d := 1;
    SearchBegins(n, c, start);
    while k < STEPS
      invariant 0 <= k <= STEPS
      invariant x == Walk(n, c, start, k) && y == Walk(n, c, start, 2 * k)
      invariant d == 1
      invariant NothingBefore(n, c, start, k)
    {
      x := Next(n, c, x);
      y := Next(n, c, y);
      y := Next(n, c, y);
      k := k + 1;
      d := ComputeGcd(Distance(x, y), n);
      SearchStep(n, c, start, k, d);
      if d > 1 {
        return;
      }
    }
    SearchEnds(n, c, start);
  }

  ghost predicate NothingBefore(n: u64, c: u64, start: u64, k: nat)
    requires n > 0
  {
    forall j :: 1 <= j <= k ==> DivisorAt(n, c, start, j) == 1
  }

  lemma SearchBegins(n: u64, c: u64, start: u64)
    requires n > 0
    ensures NothingBefore(n, c, start, 0) && Divides(1, n)
  {
  }

  lemma SearchStep(n: u64, c: u64, start: u64, k: nat, d: nat)
    requires n > 0 && 1 <= k <= STEPS && NothingBefore(n, c, start, k - 1)
    requires d == Gcd(Distance(Walk(n, c, start, k), Walk(n, c, start, 2 * k)), n)
    ensures d >= 1 && Divides(d, n)
    ensures d > 1 ==> Outcome(n, c, start, d)
    ensures d == 1 ==> NothingBefore(n, c, start, k)
  {
    var apart := Distance(Walk(n, c, start, k), Walk(n, c, start, 2 * k));
    GcdDivides(apart, n);
    hide Gcd, Walk;
    assert d == DivisorAt(n, c, start, k);
  }

  lemma SearchEnds(n: u64, c: u64, start: u64)
    requires n > 0 && NothingBefore(n, c, start, STEPS)
    ensures Outcome(n, c, start, 1) && Divides(1, n)
  {
  }

  // ----- a small factor is always met -------------------------------------------------------------

  // The sum in one step from x does not leave the 64-bit word.
  predicate SumFits(n: u64, c: u64, x: u64)
    requires n > 0
  {
    MulMod(x, x, n) + c < WORD
  }

  // No sum that occurs on the walk leaves the word.
  ghost predicate SumsFit(n: u64, c: u64, start: u64)
    requires n > 0
  {
    forall k: nat :: SumFits(n, c, Walk(n, c, start, k))
  }

  lemma NextIsPolynomial(n: u64, c: u64, x: u64)
    requires n > 0 && SumFits(n, c, x)
    ensures Next(n, c, x) == (x * x % n + c) % n
  {
    SumStaysInWord(MulMod(x, x, n), c);
  }

  lemma SumStaysInWord(a: u64, b: u64)
    requires a + b < WORD
    ensures AddWords(a, b) == a + b
  {
  }

  // The walk is well defined on residues modulo a divisor of n.
  lemma NextKeepsCongruence(n: u64, c: u64, m: nat, x: u64, y: u64)
    requires n > 0 && SumFits(n, c, x) && SumFits(n, c, y) && Divides(m, n) && Congruent(x, y, m)
    ensures Congruent(Next(n, c, x), Next(n, c, y), m)
  {
    NextIsPolynomial(n, c, x);
    NextIsPolynomial(n, c, y);
    NextResidue(n, c, m, x);
    NextResidue(n, c, m, y);
    CongruentProducts(x, y, x, y, m);
    CongruentSums(x * x, y * y, c, m);
  }

  lemma NextResidue(n: u64, c: u64, m: nat, x: u64)
    requires n > 0 && Divides(m, n)
    ensures Congruent((x * x % n + c) % n, x * x + c, m)
  {
    ReductionKeepsResidue(x * x, n, m);
    CongruentSums(x * x % n, x * x, c, m);
    ReductionKeepsResidue(x * x % n + c, n, m);
  }

  // Once two points of the walk are congruent, so are the points t moves later.
  lemma {:induction false} MeetingPersists(n: u64, c: u64, start: u64, m: nat, i: nat, j: nat, t: nat)
    requires n > 0 && SumsFit(n, c, start) && Divides(m, n)
    requires Congruent(Walk(n, c, start, i), Walk(n, c, start, j), m)
    ensures Congruent(Walk(n, c, start, i + t), Walk(n, c, start, j + t), m)
    decreases t
  {
    hide Next, SumFits;
    if t != 0 {
      MeetingPersists(n, c, start, m, i, j, t - 1);
      NextKeepsCongruence(n, c, m, Walk(n, c, start, i + t - 1), Walk(n, c, start, j + t - 1));
    }
  }

  // After a meeting at i and i + period, points any number of periods apart are congruent.
  lemma {:induction false} PeriodsRepeat(n: u64, c: u64, start: u64, m: nat, i: nat, period: nat, k: nat, laps: nat, span: nat)
    requires n > 0 && SumsFit(n, c, start) && Divides(m, n) && i <= k && span == laps * period
    requires Congruent(Walk(n, c, start, i), Walk(n, c, start, i + period), m)
    ensures Congruent(Walk(n, c, start, k), Walk(n, c, start, k + span), m)
    decreases laps
  {
    hide Walk, SumsFit;
    if laps != 0 {
      var earlier := (laps - 1) * period;
      assert span == earlier + period;
      PeriodsRepeat(n, c, start, m, i, period, k, laps - 1, earlier);
      var t := k + earlier - i;
      MeetingPersists(n, c, start, m, i, i + period, t);
      assert i + t == k + earlier && i + period + t == k + span;
    }
  }

  ghost predicate Repeats(s: seq<nat>) {
    exists i, j :: 0 <= i < j < |s| && s[i] == s[j]
  }

  lemma {:induction false} Pigeonhole(s: seq<nat>, m: nat)
    requires |s| > m && forall i :: 0 <= i < |s| ==> s[i] < m
    ensures Repeats(s)
    decreases m
  {
    assert s[0] < m;
    var last := |s| - 1;
    var rest := s[..last];
    if i :| 0 <= i < last && s[i] == s[last] {
    } else {
      // Rename the value m - 1, if it occurs, to the value of the last entry.
      var renamed := seq(last, i requires 0 <= i < last => if rest[i] == m - 1 then s[last] else rest[i]);
      forall i | 0 <= i < last ensures renamed[i] < m - 1 {
        assert rest[i] == s[i];
      }
      Pigeonhole(renamed, m - 1);
      var i, j :| 0 <= i < j < last && renamed[i] == renamed[j];
      assert s[i] == s[j];
    }
  }

  // Two of the first m + 1 points of the walk agree modulo m.
  lemma SomePointsMeet(n: u64, c: u64, start: u64, m: nat) returns (i: nat, j: nat)
    requires n > 0 && m > 0
    ensures i < j <= m && Congruent(Walk(n, c, start, i), Walk(n, c, start, j), m)
  {
    hide Walk;
    var residues := seq(m + 1, k requires 0 <= k <= m => Walk(n, c, start, k) % m);
    Pigeonhole(residues, m);
    i, j :| 0 <= i < j < |residues| && residues[i] == residues[j];
  }

  // Floyd's argument: tortoise and hare agree modulo m at some step between 1 and m.
  lemma TortoiseAndHareMeet(n: u64, c: u64, start: u64, m: nat) returns (k: nat)
    requires n > 0 && SumsFit(n, c, start) && Divides(m, n)
    ensures 1 <= k <= m && Congruent(Walk(n, c, start, k), Walk(n, c, start, 2 * k), m)
  {
    hide Walk;
    var i, j := SomePointsMeet(n, c, start, m);
    var period, laps;
    period, laps, k := LapsToGo(i, j);
    PeriodsRepeat(n, c, start, m, i, period, k, laps, k);
  }

  // The first positive multiple of the period at or after the first meeting.
  lemma LapsToGo(i: nat, j: nat) returns (period: nat, laps: nat, k: nat)
    requires i < j
    ensures period == j - i && k == laps * period && i <= k && 1 <= k <= j
  {
    period := j - i;
    if i == 0 {
      laps := 1;
      k := period;
    } else {
      laps := (i + period - 1) / period;
      k := laps * period;
      assert i + period - 1 == period * laps + (i + period - 1) % period;
    }
  }

  // If n has a divisor m, every search ends with a divisor above one by step m.
  lemma SmallDivisorIsMet(n: u64, c: u64, start: u64, m: nat) returns (k: nat)
    requires n > 0 && SumsFit(n, c, start) && Divides(m, n) && m > 1
    ensures 1 <= k <= m && DivisorAt(n, c, start, k) > 1
  {
    hide Walk, Gcd;
    k := TortoiseAndHareMeet(n, c, start, m);
    var x, y := Walk(n, c, start, k), Walk(n, c, start, 2 * k);
    DifferenceIsMultiple(x, y, m);
    DifferenceIsMultiple(y, x, m);
    GcdIsGreatest(Distance(x, y), n, m);
    GcdIsPositive(Distance(x, y), n);
  }

  lemma SearchMeetsSmallDivisors(n: u64, c: u64, start: u64, m: nat, d: nat)
    requires n > 0 && SumsFit(n, c, start) && Divides(m, n) && 1 < m <= STEPS
    requires Outcome(n, c, start, d)
    ensures d > 1 && exists k :: 1 <= k <= m && d == DivisorAt(n, c, start, k)
  {
    hide DivisorAt;
    var k := SmallDivisorIsMet(n, c, start, m);
  }

  // ----- the factoriser -----------------------------------------------------------------------------

  // The constants of the i-th try; the increments wrap like the additions.
  function TryConstant(n: u64, seed: u64, i: nat): u64
    requires n > 1
  {
    (1 + seed % (n - 1) + 2 * i) % WORD
  }

  function TryStart(n: u64, seed: u64, i: nat): u64
    requires n > 4
  {
    2 + AddWords(seed, TryConstant(n, seed, i)) % (n - 3)
  }

  // The factors a divisor yields, if it is proper and both factors fit 32 bits.
  function Split(n: u64, d: nat): Option<(u32, u32)> {
    if 1 < d < n && n / d * d == n then
      var a, b := if d < n / d then d else n / d, if d < n / d then n / d else d;
      if a <= 0xffff_ffff && b <= 0xffff_ffff then
        assert n / d >= 0;
        Some((a, b))
      else None
    else None
  }

  // The i-th try ends with this answer.
  ghost predicate Answers(n: u64, seed: u64, i: nat, answer: Option<(u32, u32)>)
    requires n > 4
  {
    exists d :: Outcome(n, TryConstant(n, seed, i), TryStart(n, seed, i), d) && answer == Split(n, d)
  }

  lemma SplitIsSound(n: u64, d: nat)
    requires Split(n, d).Some?
    ensures var (a, b) := Split(n, d).value; a * b == n && 1 < a <= b
  {
    assert n / d > 1;
  }

  // Every try before the i-th ends without factors.
  ghost predicate NoneBefore(n: u64, seed: u64, i: nat)
    requires n > 4
  {
    forall j :: 0 <= j < i ==> Answers(n, seed, j, None)
  }

  // The factors are those of the first try that ends with some.
  ghost predicate FirstAnswer(n: u64, seed: u64, factors: (u32, u32))
    requires n > 4
  {
    exists i :: 0 <= i < TRIES && Answers(n, seed, i, Some(factors)) && NoneBefore(n, seed, i)
  }

  // The answer of the factoriser.
  ghost predicate Factored(n: u64, seed: u64, r: Result<(u32, u32)>) {
    if n < 15 || n % 2 == 0 then r == Err(InvalidPacket)
    else match r
      case Ok(factors) => FirstAnswer(n, seed, factors)
      case Err(kind) => kind == LimitExceeded && NoneBefore(n, seed, TRIES)
  }

  // Factors that are found multiply to the number, the smaller one first.
  lemma FactorsAreSound(n: u64, seed: u64, factors: (u32, u32))
    requires Factored(n, seed, Ok(factors))
    ensures factors.0 * factors.1 == n && 1 < factors.0 <= factors.1
  {
    hide Outcome, Split, TryConstant, TryStart;
    var i :| 0 <= i < TRIES && Answers(n, seed, i, Some(factors));
    var d :| Outcome(n, TryConstant(n, seed, i), TryStart(n, seed, i), d) && Some(factors) == Split(n, d);
    SplitIsSound(n, d);
  }

  lemma OutcomeIsDetermined(n: u64, c: u64, start: u64, d: nat, d': nat)
    requires n > 0 && Outcome(n, c, start, d) && Outcome(n, c, start, d')
    ensures d == d'
  {
    hide DivisorAt;
    if d > 1 && d' > 1 {
      var k :| 1 <= k <= STEPS && d == DivisorAt(n, c, start, k)
               && forall j :: 1 <= j < k ==> DivisorAt(n, c, start, j) == 1;
      var k' :| 1 <= k' <= STEPS && d' == DivisorAt(n, c, start, k')
                && forall j :: 1 <= j < k' ==> DivisorAt(n, c, start, j) == 1;
      assert !(k < k') && !(k' < k);
    }
  }

  lemma AnswerIsDetermined(n: u64, seed: u64, i: nat, a: Option<(u32, u32)>, b: Option<(u32, u32)>)
    requires n > 4 && Answers(n, seed, i, a) && Answers(n, seed, i, b)
    ensures a == b
  {
    hide Outcome, Split, TryConstant, TryStart;
    var c, start := TryConstant(n, seed, i), TryStart(n, seed, i);
    var d :| Outcome(n, c, start, d) && a == Split(n, d);
    var d' :| Outcome(n, c, start, d') && b == Split(n, d');
    OutcomeIsDetermined(n, c, start, d, d');
  }

  // The number and the seed leave the factoriser no choice.
  lemma FactorsAreDetermined(n: u64, seed: u64, r: Result<(u32, u32)>, r': Result<(u32, u32)>)
    requires Factored(n, seed, r) && Factored(n, seed, r')
    ensures r == r'
  {
    hide Answers;
    if n >= 15 && n % 2 == 1 {
      if r.Ok? && r'.Ok? {
        var i :| 0 <= i < TRIES && Answers(n, seed, i, Some(r.value)) && NoneBefore(n, seed, i);
        var i' :| 0 <= i' < TRIES && Answers(n, seed, i', Some(r'.value)) && NoneBefore(n, seed, i');
        if i < i' {
          AnswerIsDetermined(n, seed, i, Some(r.value), None);
        } else if i' < i {
          AnswerIsDetermined(n, seed, i', Some(r'.value), None);
        } else {
          AnswerIsDetermined(n, seed, i, Some(r.value), Some(r'.value));
        }
      } else if r.Ok? {
        FoundIsNotNone(n, seed, r.value);
      } else if r'.Ok? {
        FoundIsNotNone(n, seed, r'.value);
      }
    }
  }

  lemma FoundIsNotNone(n: u64, seed: u64, factors: (u32, u32))
    requires n > 4 && FirstAnswer(n, seed, factors)
    ensures !NoneBefore(n, seed, TRIES)
  {
    hide Answers;
    var i :| 0 <= i < TRIES && Answers(n, seed, i, Some(factors)) && NoneBefore(n, seed, i);
    if NoneBefore(n, seed, TRIES) {
      AnswerIsDetermined(n, seed, i, Some(factors), None);
    }
  }

  lemma TryConstants(n: u64, seed: u64, i: nat)
    requires n > 1
    ensures TryConstant(n, seed, 0) == 1 + seed % (n - 1)
    ensures TryConstant(n, seed, i + 1) == AddWords(TryConstant(n, seed, i), 2)
  {
    var unwrapped := 1 + seed % (n - 1) + 2 * i;
    assert seed % (n - 1) < n - 1;
    assert unwrapped % WORD == unwrapped - WORD * (unwrapped / WORD);
    AddMultiple(unwrapped + 2, -(unwrapped / WORD), WORD);
  }

  // When n has a divisor of at most STEPS and no sum overflows, a failing try is one that met the
  // whole of n, or a divisor one of whose factors is too long.
  lemma FailedTryIsDegenerate(n: u64, seed: u64, i: nat, m: nat, d: nat)
    requires n >= 15 && SumsFit(n, TryConstant(n, seed, i), TryStart(n, seed, i))
    requires Divides(m, n) && 1 < m <= STEPS
    requires Outcome(n, TryConstant(n, seed, i), TryStart(n, seed, i), d) && Split(n, d).None?
    ensures d == n || (Divides(d, n) && 1 < d < n && (d > 0xffff_ffff || n / d > 0xffff_ffff))
  {
    hide Outcome, DivisorAt;
    SearchMeetsSmallDivisors(n, TryConstant(n, seed, i), TryStart(n, seed, i), m, d);
    var k :| 1 <= k <= m && d == DivisorAt(n, TryConstant(n, seed, i), TryStart(n, seed, i), k);
    DivisorAtDivides(n, TryConstant(n, seed, i), TryStart(n, seed, i), k);
    DivisorIsSmaller(d, n);
  }

  lemma DivisorAtDivides(n: u64, c: u64, start: u64, k: nat)
    requires n > 0
    ensures Divides(DivisorAt(n, c, start, k), n)
  {
    hide Gcd, Walk;
    GcdDivides(Distance(Walk(n, c, start, k), Walk(n, c, start, 2 * k)), n);
  }

  lemma DivisorIsSmaller(d: nat, n: nat)
    requires Divides(d, n) && n > 0
    ensures d <= n && n / d * d == n
  {
    assert n == d * (n / d);
    if n / d >= 1 {
      MultipleIsAtLeast(d, n / d);
    }
  }

  // ----- when no sum overflows ------------------------------------------------------------------------

  // The largest sum a step could have to form, were every residue a square.
  function LargestSum(n: u64, c: u64): nat
    requires n > 0
  {
    n - 1 + c
  }

  lemma LargestSumBoundsAll(n: u64, c: u64, start: u64)
    requires n > 0 && LargestSum(n, c) < WORD
    ensures SumsFit(n, c, start) && forall x: u64 :: SumFits(n, c, x)
  {
    hide Walk;
  }

  // At the handshake's call the seed is one byte; then the largest possible sum of all tries stays within
  // the word exactly up to this bound on n.
  lemma LargestSumForByteSeeds(n: u64)
    requires n >= 15
    ensures (forall seed: u64, i :: seed < 256 && 0 <= i < TRIES ==> LargestSum(n, TryConstant(n, seed, i)) < WORD)
       <==> n <= WORD - 318
  {
    hide TryConstant;
    if n <= WORD - 318 {
      forall seed: u64, i | seed < 256 && 0 <= i < TRIES ensures LargestSum(n, TryConstant(n, seed, i)) < WORD {
        ByteSeedConstant(n, seed, i);
      }
    } else {
      ByteSeedConstant(n, 255, 31);
    }
  }

  // The sums that are formed fit one number further: seven divides that number, and no square leaves the
  // residue six that the largest sum would need.
  lemma SumsFitForByteSeeds(n: u64, seed: u64, i: nat)
    requires 15 <= n <= WORD - 317 && seed < 256 && i < TRIES
    ensures forall x: u64 :: SumFits(n, TryConstant(n, seed, i), x)
    ensures n > 4 && SumsFit(n, TryConstant(n, seed, i), TryStart(n, seed, i))
  {
    hide TryConstant, TryStart, Walk;
    ByteSeedConstant(n, seed, i);
    if n <= WORD - 318 {
      LargestSumBoundsAll(n, TryConstant(n, seed, i), TryStart(n, seed, i));
    } else {
      forall x: u64 ensures SumFits(n, TryConstant(n, seed, i), x) {
        SquareMissesLargestResidue(x);
      }
    }
  }

  lemma SquareMissesLargestResidue(x: u64)
    ensures MulMod(x, x, WORD - 317) <= WORD - 319
  {
    var n: u64 := WORD - 317;
    assert Divides(7, n);
    ReductionKeepsResidue(x * x, n, 7);
    SquaresModuloSeven(x);
    assert (n - 1) % 7 == 6;
    assert x * x % n < n;
  }

  lemma SquaresModuloSeven(x: nat)
    ensures x * x % 7 != 6
  {
    var r := x % 7;
    ReductionKeepsSelf(x, 7);
    CongruentProducts(x, r, x, r, 7);
    assert r == 0 || r == 1 || r == 2 || r == 3 || r == 4 || r == 5 || r == 6;
  }

  // For the next odd number a square makes the sum overflow, so the bound cannot be raised.
  lemma ByteSeedBoundIsSharp()
    ensures !SumFits(WORD - 315, TryConstant(WORD - 315, 255, 31), 13_926_299_398_760_672_035)
  {
    var n: u64, x: u64 := WORD - 315, 13_926_299_398_760_672_035;
    hide TryConstant;
    ByteSeedConstant(n, 255, 31);
    DivisionIsUnique(x * x, n, 10_513_606_854_899_087_425, n - 1);
  }

  lemma ByteSeedConstant(n: u64, seed: u64, i: nat)
    requires n >= 15 && seed < 256 && i < TRIES
    ensures TryConstant(n, seed, i) <= 318
    ensures n > 256 ==> TryConstant(n, seed, i) == 1 + seed + 2 * i
  {
    var residue := seed % (n - 1);
    assert residue <= seed by {
      ResidueIsSmaller(seed, n - 1);
    }
    DivisionIsUnique(1 + residue + 2 * i, WORD, 0, 1 + residue + 2 * i);
    if n > 256 {
      DivisionIsUnique(seed, n - 1, 0, seed);
    }
  }

  lemma ResidueIsSmaller(x: nat, m: nat)
    requires m > 0
    ensures x % m <= x
  {
    if x < m {
      DivisionIsUnique(x, m, 0, x);
    }
  }

  // The same for arbitrary seeds.
  lemma LargestSumForAnySeed(n: u64)
    requires n >= 15
    ensures (forall seed: u64, i :: 0 <= i < TRIES ==> LargestSum(n, TryConstant(n, seed, i)) < WORD)
       <==> n <= WORD / 2 - 31
  {
    hide TryConstant;
    if n <= WORD / 2 - 31 {
      forall seed: u64, i | 0 <= i < TRIES ensures LargestSum(n, TryConstant(n, seed, i)) < WORD {
        UnwrappedConstant(n, seed, i);
      }
    } else if n <= WORD / 2 {
      UnwrappedConstant(n, n - 2, 31);
    } else {
      UnwrappedConstant(n, n - 2, 0);
    }
  }

  lemma SumsFitForAnySeed(n: u64, seed: u64, i: nat)
    requires 15 <= n <= WORD / 2 - 31 && i < TRIES
    ensures SumsFit(n, TryConstant(n, seed, i), TryStart(n, seed, i))
  {
    hide TryConstant, TryStart;
    UnwrappedConstant(n, seed, i);
    LargestSumBoundsAll(n, TryConstant(n, seed, i), TryStart(n, seed, i));
  }

  // Beyond that bound a sum of the walk can leave the word: here the first one does.
  lemma FirstSumOverflows()
    ensures var n, seed := WORD - 1, 0xc000_0000_0000_0000;
      !SumFits(n, TryConstant(n, seed, 0), TryStart(n, seed, 0))
  {
    var n: u64, seed: u64 := WORD - 1, 0xc000_0000_0000_0000;
    UnwrappedConstant(n, seed, 0);
    DivisionIsUnique(seed, n - 1, 0, seed);
    assert TryConstant(n, seed, 0) == seed + 1;
    hide TryConstant;
    var x := 0x8000_0000_0000_0003;
    assert TryStart(n, seed, 0) == x;
    DivisionIsUnique(x * x, n, 0x4000_0000_0000_0003, 0x4000_0000_0000_000c);
  }

  lemma UnwrappedConstant(n: u64, seed: u64, i: nat)
    requires n >= 15 && i < TRIES && n - 1 + 2 * i < WORD
    ensures TryConstant(n, seed, i) == 1 + seed % (n - 1) + 2 * i <= n - 1 + 2 * i
    ensures seed == n - 2 ==> TryConstant(n, seed, i) == n - 1 + 2 * i
  {
    var residue := seed % (n - 1);
    assert residue <= n - 2;
    DivisionIsUnique(1 + residue + 2 * i, WORD, 0, 1 + residue + 2 * i);
    if seed == n - 2 {
      DivisionIsUnique(seed, n - 1, 0, seed);
    }
  }

  // ----- the factoriser's answer --------------------------------------------------------------------------

  // The i-th try met, after at most m steps, n itself or a divisor one of whose factors needs more than 32 bits.
  ghost predicate DegenerateTry(n: u64, seed: u64, i: nat, m: nat)
    requires n > 4
  {
    exists k :: 1 <= k <= m && MeetsBadDivisor(n, DivisorAt(n, TryConstant(n, seed, i), TryStart(n, seed, i), k))
  }

  predicate MeetsBadDivisor(n: u64, d: nat) {
    d == n || (1 < d < n && n % d == 0 && (d > 0xffff_ffff || n / d > 0xffff_ffff))
  }

  // When the tries give nothing although there is a small divisor, each of them was of that kind.
  lemma FailureIsDegenerate(n: u64, seed: u64)
    requires 15 <= n <= WORD - 317 && seed < 256 && NoneBefore(n, seed, TRIES)
    ensures forall m, i :: Divides(m, n) && 1 < m <= 200_000 && 0 <= i < 32 ==> DegenerateTry(n, seed, i, m)
  {
    hide Answers, SumsFit, TryConstant, TryStart;
    forall m, i | Divides(m, n) && 1 < m <= 200_000 && 0 <= i < 32 ensures DegenerateTry(n, seed, i, m) {
      FailedTryMetBadDivisor(n, seed, i, m);
    }
  }

  lemma FailedTryMetBadDivisor(n: u64, seed: u64, i: nat, m: nat)
    requires 15 <= n <= WORD - 317 && seed < 256 && i < 32 && Answers(n, seed, i, None)
    requires Divides(m, n) && 1 < m <= 200_000
    ensures DegenerateTry(n, seed, i, m)
  {
    hide Outcome, DivisorAt, TryConstant, TryStart, Walk, Split;
    var c, start := TryConstant(n, seed, i), TryStart(n, seed, i);
    var d :| Outcome(n, c, start, d) && None == Split(n, d);
    SumsFitForByteSeeds(n, seed, i);
    FailedTryIsDegenerate(n, seed, i, m, d);
    SearchMeetsSmallDivisors(n, c, start, m, d);
    var k :| 1 <= k <= m && d == DivisorAt(n, c, start, k);
    assert MeetsBadDivisor(n, DivisorAt(n, c, start, k));
  }

  method FactorPq(n: u64, seed: u64) returns (r: Result<(u32, u32)>)
    ensures r.Ok? ==> r.value.0 * r.value.1 == n && 1 < r.value.0 <= r.value.1
    ensures Factored(n, seed, r)
    ensures r == Err(InvalidPacket) <==> n < 15 || n % 2 == 0
    ensures r.Err? && r != Err(InvalidPacket) ==> r == Err(LimitExceeded)
    ensures 15 <= n <= 0x1_0000_0000_0000_0000 - 317 && n % 2 == 1 && seed < 256 && r.Err? ==>
      forall m, i :: Divides(m, n) && 1 < m <= 200_000 && 0 <= i < 32 ==> DegenerateTry(n, seed, i, m)
  {
    if n < 15 || n % 2 == 0 {
      return Err(InvalidPacket);
    }
    TryConstants(n, seed, 0);
    hide Split, Outcome, TryConstant, AddWords;
    var c: u64 := 1 + seed % (n - 1);
    var i := 0;
    while i < TRIES
      invariant 0 <= i <= TRIES
      invariant c == TryConstant(n, seed, i)
      invariant NoneBefore(n, seed, i)
    {
      TryConstants(n, seed, i);
      var start: u64 := 2 + AddWords(seed, c) % (n - 3);
      var d := Search(n, c, start);
      assert Answers(n, seed, i, Split(n, d));
      match Split(n, d) {
        case Some(factors) =>
          SplitIsSound(n, d);
          return Ok(factors);
        case None =>
      }
      c := AddWords(c, 2);
      i := i + 1;
    }
    if n <= WORD - 317 && seed < 256 {
      FailureIsDegenerate(n, seed);
    }
    return Err(LimitExceeded);
  }
}

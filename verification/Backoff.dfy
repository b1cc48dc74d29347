/** The per-peer backoff between failed synchronisations, in Go's 64-bit arithmetic. */
module Backoff {
  import opened Records

  const BASE_DELAY: Time := 5_000_000_000
  const MAX_DELAY: Time := 300_000_000_000

  const TWO_63 := 0x8000_0000_0000_0000
  const TWO_64 := 0x1_0000_0000_0000_0000

  /** The value an int64 multiplication leaves. */
  function Wrap64(x: int): int {
    if x % TWO_64 < TWO_63 then x % TWO_64 else x % TWO_64 - TWO_64
  }

  function Pow2(n: nat): (r: nat)
    ensures r >= 1
  {
    if n == 0 then 1 else 2 * Pow2(n - 1)
  }

  /** `time.Duration(math.Pow(2, n))`: exact while it fits, otherwise whatever the platform makes of it. */
  function ToDuration(n: nat, overflow: int): int {
    if n < 63 then Pow2(n) else overflow
  }

  /** The delay computed at the n-th consecutive failure. */
  function Delay(n: nat, overflow: int): Time
    requires n > 0
  {
    var d := Wrap64(BASE_DELAY * ToDuration(n - 1, overflow));
    if d > MAX_DELAY then MAX_DELAY else d
  }

  /** The delay that is meant: doubling from five seconds, capped at five minutes. */
  function Intended(n: nat): Time
    requires n > 0
  {
    if BASE_DELAY * Pow2(n - 1) > MAX_DELAY then MAX_DELAY else BASE_DELAY * Pow2(n - 1)
  }

  lemma {:induction false} Pow2Grows(m: nat, n: nat)
    requires m <= n
    ensures Pow2(m) <= Pow2(n)
  {
    if m < n { Pow2Grows(m, n - 1); }
  }

  lemma {:induction false} Pow2Sum(m: nat, n: nat)
    ensures Pow2(m + n) == Pow2(m) * Pow2(n)
  {
    if m > 0 {
      Pow2Sum(m - 1, n);
      assert Pow2(m + n) == 2 * Pow2(m - 1 + n);
    }
  }

  lemma Pow2Values()
    ensures Pow2(10) == 1024 && Pow2(30) == 1073741824 && Pow2(40) == 1099511627776
    ensures Pow2(9) == 512 && Pow2(63) == TWO_63 && Pow2(64) == TWO_64
  {
    assert Pow2(4) == 16;
    Pow2Sum(4, 4);
    assert Pow2(9) == 512;
    Pow2Sum(10, 10);
    Pow2Sum(20, 10);
    Pow2Sum(30, 10);
    Pow2Sum(40, 20);
    assert Pow2(63) == 8 * Pow2(60);
  }

  /** Through the 31st failure the product fits in 64 bits. */
  lemma DelayExactThrough31(n: nat, overflow: int)
    requires 1 <= n <= 31
    ensures BASE_DELAY * Pow2(n - 1) < TWO_63 && Delay(n, overflow) == Intended(n) > 0
  {
    Pow2Grows(n - 1, 30);
    Pow2Values();
  }

  /** The base delay is this odd number of nanoseconds, times 2^9. */
  const ODD_PART := 9_765_625

  /** What multiplying by 2^(n-1) leaves of the odd part once the product has outgrown 64 bits. */
  function Remnant(n: nat): nat
    requires 1 <= n <= 56
  {
    ODD_PART % Pow2(56 - n)
  }

  lemma DivModScaled(a: nat, m: nat, s: nat)
    requires m > 0 && s > 0
    ensures a * s == (a / m) * (m * s) + (a % m) * s
    ensures (a % m) * s < m * s
  {
    assert a == m * (a / m) + a % m;
    calc {
      a * s;
      (m * (a / m) + a % m) * s;
      m * (a / m) * s + (a % m) * s;
      { assert m * (a / m) * s == (a / m) * (m * s); }
      (a / m) * (m * s) + (a % m) * s;
    }
    MulLess(a % m, m, s);
  }

  lemma MulLess(x: nat, y: nat, s: nat)
    requires x < y && s > 0
    ensures x * s < y * s
  {
  }

  lemma OddForm(n: nat)
    requires n > 0
    ensures BASE_DELAY * Pow2(n - 1) == ODD_PART * Pow2(n + 8)
  {
    Pow2Values();
    Pow2Sum(9, n - 1);
    var x := Pow2(n - 1);
    assert Pow2(n + 8) == 512 * x;
  }

  lemma Mod64(k: nat, r: nat)
    requires r < TWO_64
    ensures (k * TWO_64 + r) % TWO_64 == r
  {
  }

  lemma WrappedProduct(n: nat)
    requires 32 <= n <= 56
    ensures Pow2(56 - n) * Pow2(n + 8) == TWO_64
    ensures BASE_DELAY * Pow2(n - 1) % TWO_64 == Remnant(n) * Pow2(n + 8) < TWO_64
  {
    Pow2Values();
    Pow2Sum(56 - n, n + 8);
    OddForm(n);
    WrappedScaled(Pow2(56 - n), Pow2(n + 8));
  }

  lemma WrappedScaled(m: nat, s: nat)
    requires m > 0 && s > 0 && m * s == TWO_64
    ensures ODD_PART * s % TWO_64 == (ODD_PART % m) * s < TWO_64
  {
    DivModScaled(ODD_PART, m, s);
    Mod64(ODD_PART / m, (ODD_PART % m) * s);
  }

  lemma {:induction false} OddModEven(m: nat)
    requires m > 0 && m % 2 == 0
    ensures ODD_PART % m % 2 == 1
  {
    var k := ODD_PART / m;
    assert ODD_PART == m * k + ODD_PART % m;
    assert m * k == 2 * (m / 2 * k);
  }

  /** After the 31st failure the delay is the intended cap exactly when the next bit of the odd part is
      clear, and no delay at all otherwise; from the 56th on the product is zero. */
  lemma DelayExactly(n: nat, overflow: int)
    requires 1 <= n <= 63
    ensures Delay(n, overflow) == Intended(n) <==> n <= 31 || (n <= 55 && Remnant(n) < Pow2(55 - n))
    ensures Delay(n, overflow) != Intended(n) ==> Delay(n, overflow) <= 0
  {
    Pow2Values();
    if n <= 31 {
      DelayExactThrough31(n, overflow);
    } else {
      Pow2Grows(31, n - 1);
      assert Pow2(31) == 2 * Pow2(30);
      if n <= 55 { LateDelay(n, overflow); } else { ZeroProduct(n); }
    }
  }

  /** The delay is read off what 64 bits keep of the product. */
  lemma DelayFromProduct(n: nat, overflow: int, r: nat)
    requires 1 <= n <= 63 && BASE_DELAY * Pow2(n - 1) % TWO_64 == r
    ensures Delay(n, overflow) == if r >= TWO_63 then r - TWO_64 else if r > MAX_DELAY then MAX_DELAY else r
  {
  }

  lemma LateDelay(n: nat, overflow: int)
    requires 32 <= n <= 55
    ensures Delay(n, overflow) == MAX_DELAY <==> Remnant(n) < Pow2(55 - n)
    ensures Delay(n, overflow) != MAX_DELAY ==> Delay(n, overflow) <= 0
  {
    WrappedProduct(n);
    DelayFromProduct(n, overflow, Remnant(n) * Pow2(n + 8));
    LateProduct(n);
  }

  lemma RemnantPositive(n: nat)
    requires 32 <= n <= 55
    ensures Remnant(n) >= 1
  {
    assert Pow2(56 - n) == 2 * Pow2(55 - n);
    OddModEven(Pow2(56 - n));
  }

  lemma HalfProduct(n: nat)
    requires 32 <= n <= 55
    ensures Pow2(55 - n) * Pow2(n + 8) == TWO_63 && Pow2(n + 8) >= 1099511627776
  {
    Pow2Values();
    Pow2Sum(55 - n, n + 8);
    Pow2Grows(40, n + 8);
  }

  lemma LateProduct(n: nat)
    requires 32 <= n <= 55
    ensures var q, half, r := Remnant(n), Pow2(55 - n), Remnant(n) * Pow2(n + 8);
            && (q < half ==> MAX_DELAY < r < TWO_63)
            && (q >= half ==> TWO_63 <= r < TWO_64)
  {
    WrappedProduct(n);
    RemnantPositive(n);
    HalfProduct(n);
    SignOf(Remnant(n), Pow2(55 - n), Pow2(n + 8));
  }

  lemma SignOf(q: nat, half: nat, s: nat)
    requires q >= 1 && s >= 1099511627776 && half * s == TWO_63 && q * s < TWO_64
    ensures q < half ==> s <= q * s < TWO_63
    ensures q >= half ==> q * s >= TWO_63
  {
    if q < half { MulLess(q, half, s); }
    if q > half { MulLess(half, q, s); }
    if q > 1 { MulLess(1, q, s); }
  }

  lemma {:induction false} ZeroProduct(n: nat)
    requires 56 <= n
    ensures BASE_DELAY * Pow2(n - 1) % TWO_64 == 0
  {
    if n == 56 {
      WrappedProduct(n);
    } else {
      ZeroProduct(n - 1);
      TwiceZero(BASE_DELAY * Pow2(n - 2));
    }
  }

  lemma TwiceZero(x: int)
    requires x % TWO_64 == 0
    ensures 2 * x % TWO_64 == 0
  {
    assert x == TWO_64 * (x / TWO_64);
  }

  /** At the 32nd failure the product wraps to a negative delay, and the peer is not backed off at all. */
  lemma BackoffLostAt32(overflow: int)
    ensures Delay(32, overflow) < 0 < Intended(32)
  {
    Pow2Values();
    assert Pow2(31) == 2147483648;
    Pow2Grows(10, 31);
  }

  // ---- Runs ----

  datatype PeerState = PeerState(failures: nat, until: Time)

  const NO_FAILURES := PeerState(0, ZERO_TIME)

  function Failed(st: PeerState, now: Time, overflow: int): PeerState {
    PeerState(st.failures + 1, now + Delay(st.failures + 1, overflow))
  }

  /** One tick of the sync loop for one peer: when it starts, when the call returns, and how. */
  datatype Tick = Tick(start: Time, end: Time, ok: bool)

  predicate Skipped(st: PeerState, tick: Tick) {
    tick.start < st.until
  }

  function Step(st: PeerState, tick: Tick, overflow: int): PeerState {
    if Skipped(st, tick) then st
    else if tick.ok then NO_FAILURES
    else Failed(st, tick.end, overflow)
  }

  function After(ticks: seq<Tick>, overflow: int): PeerState {
    if ticks == [] then NO_FAILURES else Step(After(ticks[..|ticks| - 1], overflow), ticks[|ticks| - 1], overflow)
  }

  /** Ticks of one peer do not overlap: a round waits for all its calls. */
  predicate InOrder(ticks: seq<Tick>) {
    && (forall i | 0 <= i < |ticks| :: ticks[i].start <= ticks[i].end)
    && (forall i | 0 < i < |ticks| :: ticks[i - 1].end <= ticks[i].start)
  }

  /** When the calls failed that no success has followed. */
  function Streak(ticks: seq<Tick>, overflow: int): seq<Time> {
    if ticks == [] then []
    else
      var front, last := ticks[..|ticks| - 1], ticks[|ticks| - 1];
      if Skipped(After(front, overflow), last) then Streak(front, overflow)
      else if last.ok then []
      else Streak(front, overflow) + [last.end]
  }

  /** The intended delays after the failures numbered `a` up to but not including `b`, together. */
  function TotalDelay(a: nat, b: nat): Time
    requires 0 < a <= b
    decreases b - a
  {
    if a == b then 0 else Intended(a) + TotalDelay(a + 1, b)
  }

  /** How long the n-th failure holds the next call back. */
  function HeldBack(n: nat, overflow: int): Time
    requires n > 0
  {
    if Delay(n, overflow) < 0 then 0 else Delay(n, overflow)
  }

  /** The intended delay where the product's bit is clear, and otherwise nothing. */
  lemma HeldBackExactly(n: nat, overflow: int)
    requires 1 <= n <= 63
    ensures HeldBack(n, overflow) == if n <= 31 || (n <= 55 && Remnant(n) < Pow2(55 - n)) then Intended(n) else 0
  {
    DelayExactly(n, overflow);
  }

  /** What the failures numbered `a` up to but not including `b` hold back, together. */
  function TotalHeldBack(a: nat, b: nat, overflow: int): Time
    requires 0 < a <= b
    decreases b - a
  {
    if a == b then 0 else HeldBack(a, overflow) + TotalHeldBack(a + 1, b, overflow)
  }

  ghost predicate Spaced(f: seq<Time>, overflow: int) {
    forall i | 0 < i < |f| :: f[i] - f[i - 1] >= HeldBack(i, overflow)
  }

  lemma {:induction false} StreakInv(ticks: seq<Tick>, overflow: int)
    requires InOrder(ticks)
    ensures var f, st := Streak(ticks, overflow), After(ticks, overflow);
            && st.failures == |f| && Spaced(f, overflow)
            && (f != [] ==> && st.until == f[|f| - 1] + Delay(|f|, overflow)
                            && ticks != [] && f[|f| - 1] <= ticks[|ticks| - 1].end)
  {
    if ticks != [] {
      StreakInv(ticks[..|ticks| - 1], overflow);
    }
  }

  lemma {:induction false} SpacedSum(f: seq<Time>, overflow: int, i: nat, j: nat)
    requires Spaced(f, overflow) && i <= j < |f|
    ensures f[j] - f[i] >= TotalHeldBack(i + 1, j + 1, overflow)
    decreases j - i
  {
    if i < j {
      SpacedSum(f, overflow, i + 1, j);
    }
  }

  lemma {:induction false} HeldBackAsIntended(a: nat, b: nat, overflow: int)
    requires 0 < a <= b <= 32
    ensures TotalHeldBack(a, b, overflow) == TotalDelay(a, b)
    decreases b - a
  {
    if a < b {
      DelayExactThrough31(a, overflow);
      HeldBackAsIntended(a + 1, b, overflow);
    }
  }

  /** In every run of sync ticks, k consecutive failures of a peer take at least what the first k - 1 of them hold
      back, which for k at most 32 is the sum of the intended delays; the count starts afresh after any success. */
  lemma BackoffSpacing(ticks: seq<Tick>, overflow: int, k: nat)
    requires InOrder(ticks) && 0 < k <= |Streak(ticks, overflow)|
    ensures Streak(ticks, overflow)[k - 1] - Streak(ticks, overflow)[0] >= TotalHeldBack(1, k, overflow)
    ensures k <= 32 ==> TotalHeldBack(1, k, overflow) == TotalDelay(1, k)
  {
    StreakInv(ticks, overflow);
    SpacedSum(Streak(ticks, overflow), overflow, 0, k - 1);
    if k <= 32 { HeldBackAsIntended(1, k, overflow); }
  }

  lemma {:induction false} HeldBackOneMore(a: nat, b: nat, overflow: int)
    requires 0 < a <= b
    ensures TotalHeldBack(a, b + 1, overflow) == TotalHeldBack(a, b, overflow) + HeldBack(b, overflow)
    decreases b - a
  {
    if a < b { HeldBackOneMore(a + 1, b, overflow); }
  }

  /** And no more than that: calls that fail at once, each made as soon as it is not skipped, take exactly as long. */
  lemma {:induction false} SpacingIsTight(k: nat, overflow: int) returns (ticks: seq<Tick>)
    requires k > 0
    ensures InOrder(ticks) && |ticks| == k && |Streak(ticks, overflow)| == k
    ensures var f := Streak(ticks, overflow);
            f[k - 1] == ticks[k - 1].end && f[k - 1] - f[0] == TotalHeldBack(1, k, overflow)
  {
    if k == 1 {
      ticks := [Tick(0, 0, false)];
      assert ticks[..0] == [];
    } else {
      var front := SpacingIsTight(k - 1, overflow);
      StreakInv(front, overflow);
      HeldBackOneMore(1, k - 1, overflow);
      var at := front[k - 2].end + HeldBack(k - 1, overflow);
      ticks := front + [Tick(at, at, false)];
      assert ticks[..k - 1] == front;
      assert !Skipped(After(front, overflow), ticks[k - 1]);
      assert Streak(ticks, overflow) == Streak(front, overflow) + [at];
    }
  }

  /** No failure holds back longer than is intended, and the 32nd not as long. */
  lemma HeldBackAtMostIntended(n: nat, overflow: int)
    requires n > 0
    ensures HeldBack(n, overflow) <= Intended(n)
    ensures n == 32 ==> HeldBack(n, overflow) < Intended(n)
  {
    if n <= 31 {
      DelayExactThrough31(n, overflow);
    } else {
      Pow2Values();
      Pow2Grows(30, n - 1);
      if n == 32 { BackoffLostAt32(overflow); }
    }
  }

  lemma {:induction false} TotalAtMostIntended(a: nat, b: nat, overflow: int)
    requires 0 < a <= b
    ensures TotalHeldBack(a, b, overflow) <= TotalDelay(a, b)
    ensures a <= 32 < b ==> TotalHeldBack(a, b, overflow) < TotalDelay(a, b)
    decreases b - a
  {
    if a < b {
      HeldBackAtMostIntended(a, overflow);
      TotalAtMostIntended(a + 1, b, overflow);
    }
  }

  /** Every run keeps k consecutive failures as far apart as is intended if and only if k is at most 32. */
  lemma SpacedAsIntendedThrough32(k: nat, overflow: int)
    requires k > 0
    ensures (forall ticks | InOrder(ticks) && k <= |Streak(ticks, overflow)| ::
               Streak(ticks, overflow)[k - 1] - Streak(ticks, overflow)[0] >= TotalDelay(1, k))
            <==> k <= 32
  {
    if k <= 32 {
      forall ticks | InOrder(ticks) && k <= |Streak(ticks, overflow)|
        ensures Streak(ticks, overflow)[k - 1] - Streak(ticks, overflow)[0] >= TotalDelay(1, k)
      {
        BackoffSpacing(ticks, overflow, k);
      }
    } else {
      var ticks := SpacingIsTight(k, overflow);
      TotalAtMostIntended(1, k, overflow);
    }
  }

  /** In closed form: 315 seconds for seven failures and five minutes for each further one. */
  lemma {:induction false} TotalDelayClosedForm(k: nat)
    requires k >= 7
    ensures TotalDelay(1, k) == (315 + 300 * (k - 7)) * 1_000_000_000
  {
    TotalDelayFromCap(7, k);
    assert Intended(1) == 5_000_000_000 && Intended(2) == 10_000_000_000 && Intended(3) == 20_000_000_000;
    assert Pow2(3) == 8 && Pow2(4) == 16 && Pow2(5) == 32;
    assert TotalDelay(1, k) == Intended(1) + Intended(2) + TotalDelay(3, k);
    assert TotalDelay(3, k) == Intended(3) + Intended(4) + TotalDelay(5, k);
    assert TotalDelay(5, k) == Intended(5) + Intended(6) + TotalDelay(7, k);
  }

  lemma {:induction false} TotalDelayFromCap(a: nat, b: nat)
    requires 7 <= a <= b
    ensures TotalDelay(a, b) == (b - a) * MAX_DELAY
    decreases b - a
  {
    if a < b {
      Pow2Grows(6, a - 1);
      assert Pow2(6) == 64;
      TotalDelayFromCap(a + 1, b);
    }
  }

  /** A 33rd call may follow the 32nd failure at once. */
  lemma NoSpacingAfter32(st: PeerState, now: Time, overflow: int)
    requires st.failures == 31
    ensures !Skipped(Failed(st, now, overflow), Tick(now, now, false))
  {
    BackoffLostAt32(overflow);
  }
}

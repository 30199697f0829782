/**
 Exponential back-off per peer, with the 64-bit durations of the source, and the reconnect pass that
 uses it as a gate.
 */
module Backoff {
  import opened Basics

  const DEFAULT_INITIAL: int := 5_000_000_000
  const TWO_62: int := 0x4000_0000_0000_0000
  const TWO_63: int := 0x8000_0000_0000_0000
  const TWO_64: int := 0x1_0000_0000_0000_0000

  /** The 64-bit two's complement value. */
  function Wrap64(n: int): (r: int)
    ensures -TWO_63 <= r < TWO_63 && (n - r) % TWO_64 == 0
  {
    (n + TWO_63) % TWO_64 - TWO_63
  }

  /** The delay after one more failure; 0 stands for no recorded delay. */
  function Bump(d: int, initial: int, max: int): int {
    if d == 0 then initial
    else
      var doubled := Wrap64(d * 2);
      if doubled > max then max else doubled
  }

  /** The delay after `k` failures in a row. */
  function DelayAfter(k: nat, initial: int, max: int): int {
    if k == 0 then 0 else Bump(DelayAfter(k - 1, initial, max), initial, max)
  }

  /** initial * 2^k. */
  function Doubled(initial: int, k: nat): int {
    if k == 0 then initial else 2 * Doubled(initial, k - 1)
  }

  lemma {:induction false} DoubledIsPower(initial: int, k: nat)
    ensures Doubled(initial, k) == initial * Pow2(k)
  {
    if k > 0 {
      DoubledIsPower(initial, k - 1);
    }
  }

  lemma {:induction false} DoubledLarge(initial: int, k: nat)
    requires initial > 0
    ensures Doubled(initial, k) >= Pow2(k)
  {
    if k > 0 {
      DoubledLarge(initial, k - 1);
    }
  }

  predicate Configured(initial: int, max: int) {
    0 < initial <= max < TWO_63
  }

  /** The delay doubles with every failure until it reaches the cap. */
  ghost predicate ClosedForm(k: nat, initial: int, max: int) {
    DelayAfter(k + 1, initial, max) == Min(Doubled(initial, k), max)
  }

  /** Doubling up to the cap, as long as doubling the cap itself cannot overflow. */
  lemma {:induction false} DelayClosedForm(k: nat, initial: int, max: int)
    requires Configured(initial, max) && max < TWO_62
    ensures ClosedForm(k, initial, max)
  {
    if k > 0 {
      DelayClosedForm(k - 1, initial, max);
      DoubledLarge(initial, k - 1);
      var d := DelayAfter(k, initial, max);
      assert 0 < d <= max;
      assert Wrap64(d * 2) == d * 2;
    }
  }

  /** A delay of 2^62 or more becomes negative when it is doubled. */
  lemma Overflows(n: nat, initial: int, max: int)
    requires Configured(initial, max) && TWO_62 <= max && Pow2(n) == TWO_62 && ClosedForm(n, initial, max)
    ensures !ClosedForm(n + 1, initial, max)
  {
    DoubledLarge(initial, n);
    DoubledLarge(initial, n + 1);
    var d := DelayAfter(n + 1, initial, max);
    assert TWO_62 <= d <= max;
    assert Wrap64(d * 2) == d * 2 - TWO_64;
    assert DelayAfter(n + 1 + 1, initial, max) == Bump(d, initial, max);
  }

  lemma Pow2Of62()
    ensures Pow2(62) == TWO_62
  {
    assert Pow2(10) == 1024;
    assert Pow2(20) == 0x10_0000;
    assert Pow2(30) == 0x4000_0000;
    assert Pow2(40) == 0x100_0000_0000;
    assert Pow2(50) == 0x4_0000_0000_0000;
    assert Pow2(60) == 0x1000_0000_0000_0000;
  }

  /**
   The closed form holds after every number of failures exactly when the cap is below 2^62: with a
   larger cap some doubling overflows.
   */
  lemma BackoffExact(initial: int, max: int)
    requires Configured(initial, max)
    ensures (forall k: nat :: ClosedForm(k, initial, max)) <==> max < TWO_62
  {
    if max < TWO_62 {
      forall k: nat ensures ClosedForm(k, initial, max) {
        DelayClosedForm(k, initial, max);
      }
    } else {
      var n: nat := 62;
      Pow2Of62();
      if ClosedForm(n, initial, max) {
        Overflows(n, initial, max);
      }
    }
  }

  /** With initial delay and cap at 2^62 the second failure already makes the delay negative. */
  lemma SecondDelayNegative()
    ensures DelayAfter(1, TWO_62, TWO_62) == TWO_62 && DelayAfter(2, TWO_62, TWO_62) == -TWO_63
  {
    assert DelayAfter(0, TWO_62, TWO_62) == 0;
    assert Wrap64(TWO_62 * 2) == -TWO_63;
  }

  // ----- Runs of operations

  /** Failures in a row, and when the last one was recorded. */
  datatype Streak = Streak(fails: nat, at: int)

  type Streaks = map<string, Streak>

  /** What users of a tracker do with it; an attempt that finds the peer being dialled records nothing. */
  datatype Event = Allow(key: string, at: int) | Fail(key: string, at: int) | Reset(key: string) | AlreadyDialing(key: string)

  function FailsOf(streaks: Streaks, key: string): nat {
    if key in streaks then streaks[key].fails else 0
  }

  function Next(streaks: Streaks, e: Event): Streaks {
    match e
    case Fail(key, at) => if key == "" then streaks else streaks[key := Streak(FailsOf(streaks, key) + 1, at)]
    case Reset(key) => streaks - {key}
    case _ => streaks
  }

  /** A retry may run unless it comes before the last failure plus the delay for that many failures. */
  predicate Admits(streaks: Streaks, key: string, now: int, initial: int, max: int) {
    key !in streaks || now >= streaks[key].at + DelayAfter(streaks[key].fails, initial, max)
  }

  /** Events of any number of users on any keys, latest last. */
  datatype Run = Begin | Then(earlier: Run, e: Event)

  function Play(run: Run): Streaks {
    match run
    case Begin => map[]
    case Then(earlier, e) => Next(Play(earlier), e)
  }

  /** How often a key has failed since its last reset. */
  function Fails(run: Run, key: string): nat {
    match run
    case Begin => 0
    case Then(earlier, e) =>
      if e == Reset(key) then 0 else Fails(earlier, key) + (if e.Fail? && e.key == key then 1 else 0)
  }

  /** When it last did. */
  function LastFail(run: Run, key: string): int
    requires Fails(run, key) > 0
  {
    if run.e.Fail? && run.e.key == key then run.e.at else LastFail(run.earlier, key)
  }

  /** Events for other keys make no difference to a key. */
  lemma {:induction false} StreakOf(run: Run, key: string)
    requires key != ""
    ensures key in Play(run) <==> Fails(run, key) > 0
    ensures key in Play(run) ==> Play(run)[key] == Streak(Fails(run, key), LastFail(run, key))
  {
    if run.Then? {
      StreakOf(run.earlier, key);
    }
  }

  /** The closed form of the delay after `k` failures in a row. */
  function Delay(k: nat, initial: int, max: int): int
    requires k > 0
  {
    Min(Doubled(initial, k - 1), max)
  }

  /**
   The gate, after any run of events on any keys: a key may be retried exactly when it has not failed
   since its last reset, or initial * 2^(k-1), at most the cap, has passed since the last of its k
   failures.
   */
  lemma GateExact(run: Run, key: string, now: int, initial: int, max: int)
    requires Configured(initial, max) && max < TWO_62 && key != ""
    ensures Admits(Play(run), key, now, initial, max)
       <==> (Fails(run, key) > 0 ==> now >= LastFail(run, key) + Delay(Fails(run, key), initial, max))
  {
    StreakOf(run, key);
    if Fails(run, key) > 0 {
      DelayClosedForm(Fails(run, key) - 1, initial, max);
    }
  }

  // ----- Spacing of attempts

  /**
   The attempts on a key since its last reset, in rounds: a round starts with an attempt that the gate
   lets through after the round before has failed. Attempts that overlap fall into one round.
   */
  datatype Rounds = Idle | Round(number: nat, first: int, start: int, failed: bool)

  function RoundsOf(run: Run, key: string, initial: int, max: int): Rounds {
    match run
    case Begin => Idle
    case Then(earlier, e) =>
      var r := RoundsOf(earlier, key, initial, max);
      if e.key != key then r
      else
        match e
        case Allow(_, at) =>
          if !Admits(Play(earlier), key, at, initial, max) then r
          else if r.Idle? then Round(1, at, at, false)
          else if r.failed then Round(r.number + 1, r.first, at, false)
          else r
        case Fail(_, _) => if r.Idle? then r else r.(failed := true)
        case Reset(_) => Idle
        case AlreadyDialing(_) => r
  }

  /** A failure is recorded with a reading of the clock that is at most `stall` behind earlier ones. */
  predicate WellTimed(run: Run, stall: nat) {
    match run
    case Begin => true
    case Then(earlier, e) => WellTimed(earlier, stall) && (e.Fail? ==> NoneAfter(earlier, e.at + stall))
  }

  predicate NoneAfter(run: Run, t: int) {
    match run
    case Begin => true
    case Then(earlier, e) => NoneAfter(earlier, t) && (e.Allow? ==> e.at <= t)
  }

  /** The delays of `n` rounds together. */
  function Waited(n: nat, initial: int, max: int): int {
    if n == 0 then 0 else Waited(n - 1, initial, max) + Delay(n, initial, max)
  }

  lemma {:induction false} DelayGrows(j: nat, k: nat, initial: int, max: int)
    requires 0 < initial && 0 < j <= k
    ensures Delay(j, initial, max) <= Delay(k, initial, max)
  {
    if j < k {
      DoubledLarge(initial, k - 2);
      DelayGrows(j, k - 1, initial, max);
    }
  }

  lemma {:induction false} StartIsRead(run: Run, key: string, initial: int, max: int, t: int)
    requires NoneAfter(run, t) && RoundsOf(run, key, initial, max).Round?
    ensures RoundsOf(run, key, initial, max).start <= t
  {
    if !(run.e.Allow? && run.e.key == key) || RoundsOf(run.earlier, key, initial, max).Round? {
      StartIsRead(run.earlier, key, initial, max, t);
    }
  }

  /** Each failed round has been recorded, the last one after it started. */
  ghost predicate Recorded(run: Run, key: string, initial: int, max: int, stall: nat) {
    var r := RoundsOf(run, key, initial, max);
    r.Round? ==>
      && r.number > 0
      && Fails(run, key) >= (if r.failed then r.number else r.number - 1)
      && (r.failed ==> LastFail(run, key) >= r.start - stall)
  }

  lemma {:induction false} RoundsRecorded(run: Run, key: string, initial: int, max: int, stall: nat)
    requires WellTimed(run, stall) && key != ""
    ensures Recorded(run, key, initial, max, stall)
  {
    if run.Then? {
      RoundsRecorded(run.earlier, key, initial, max, stall);
      if run.e.Fail? && run.e.key == key && RoundsOf(run.earlier, key, initial, max).Round? {
        StartIsRead(run.earlier, key, initial, max, run.e.at + stall);
      }
    }
  }

  /**
   Spacing over whole runs: however the attempts on this and other keys overlap, the n-th round since
   the last reset starts at least the sum of the first n - 1 delays after the first one.
   */
  lemma {:induction false} AttemptsSpread(run: Run, key: string, initial: int, max: int, stall: nat)
    requires Configured(initial, max) && max < TWO_62 && WellTimed(run, stall) && key != ""
    requires RoundsOf(run, key, initial, max).Round?
    ensures var r := RoundsOf(run, key, initial, max);
      r.number > 0 && r.start >= r.first + Waited(r.number - 1, initial, max) - (r.number - 1) * stall
  {
    var r := RoundsOf(run.earlier, key, initial, max);
    if r.Round? {
      AttemptsSpread(run.earlier, key, initial, max, stall);
      if RoundsOf(run, key, initial, max).number > r.number {
        RoundsRecorded(run.earlier, key, initial, max, stall);
        GateExact(run.earlier, key, run.e.at, initial, max);
        DelayGrows(r.number, Fails(run.earlier, key), initial, max);
        OneMore(r.number - 1, stall);
      }
    }
  }

  /** What the rounds come to: doubling delays while they are below the cap, then the cap each time. */
  lemma {:induction false} WaitedExact(n: nat, c: nat, initial: int, max: int)
    requires 0 < initial && (c > 0 ==> Doubled(initial, c - 1) <= max) && max < Doubled(initial, c)
    ensures Waited(n, initial, max)
         == if n <= c then Doubled(initial, n) - initial else Doubled(initial, c) - initial + (n - c) * max
  {
    if n > 0 {
      WaitedExact(n - 1, c, initial, max);
      if n <= c {
        DoubledGrows(n - 1, c - 1, initial);
        assert Delay(n, initial, max) == Doubled(initial, n - 1);
      } else {
        DoubledGrows(c, n - 1, initial);
        OneMore(n - 1 - c, max);
      }
    }
  }

  lemma OneMore(k: nat, x: int)
    ensures (k + 1) * x == k * x + x
  {
  }

  lemma {:induction false} DoubledGrows(j: nat, k: nat, initial: int)
    requires 0 < initial && j <= k
    ensures Doubled(initial, j) <= Doubled(initial, k)
  {
    if j < k {
      DoubledLarge(initial, k - 1);
      DoubledGrows(j, k - 1, initial);
    }
  }

  /** The program's settings: 5 s, 10 s, 20 s and 40 s, then one minute each time. */
  lemma ProgramSpread(n: nat)
    requires n >= 4
    ensures Waited(n, DEFAULT_INITIAL, 12 * DEFAULT_INITIAL) == 15 * DEFAULT_INITIAL + (n - 4) * (12 * DEFAULT_INITIAL)
  {
    assert Doubled(DEFAULT_INITIAL, 3) == 8 * DEFAULT_INITIAL;
    WaitedExact(n, 4, DEFAULT_INITIAL, 12 * DEFAULT_INITIAL);
  }

  // ----- The tracker

  /** The delay and the next admitted time that belong to a streak. */
  ghost predicate Records(s: Streak, delay: int, next: int, initial: int, max: int) {
    delay == DelayAfter(s.fails, initial, max) && next == s.at + delay
  }

  ghost predicate Mirrors(next: map<string, int>, delay: map<string, int>, streaks: Streaks, initial: int, max: int) {
    && next.Keys == delay.Keys == streaks.Keys && "" !in next
    && forall key :: key in delay ==> Records(streaks[key], delay[key], next[key], initial, max)
  }

  lemma OneMoreFailure(next: map<string, int>, delay: map<string, int>, streaks: Streaks, key: string, now: int,
                       initial: int, max: int)
    requires Mirrors(next, delay, streaks, initial, max) && key != ""
    ensures var d := Bump(if key in delay then delay[key] else 0, initial, max);
      Mirrors(next[key := now + d], delay[key := d], Next(streaks, Event.Fail(key, now)), initial, max)
  {
    var d := Bump(if key in delay then delay[key] else 0, initial, max);
    assert d == DelayAfter(FailsOf(streaks, key) + 1, initial, max);
  }

  class Tracker {
    const initial: int
    const max: int
    var next: map<string, int>
    var delay: map<string, int>
    /** What the maps record. */
    ghost var streaks: Streaks

    ghost predicate Valid()
      reads this
    {
      0 < initial <= max && Mirrors(next, delay, streaks, initial, max)
    }

    constructor (initial: int, max: int)
      ensures Valid() && next == map[] && streaks == Play(Begin)
      ensures this.initial == (if initial <= 0 then DEFAULT_INITIAL else initial)
      ensures this.max == (if max < this.initial then this.initial else max)
    {
      var i := if initial <= 0 then DEFAULT_INITIAL else initial;
      this.initial := i;
      this.max := if max < i then i else max;
      next, delay, streaks := map[], map[], map[];
    }

    method Allow(key: string, now: int) returns (ok: bool)
      requires Valid()
      ensures ok <==> Admits(streaks, key, now, initial, max)
    {
      ok := key == "" || !(key in next && now < next[key]);
    }

    method NextDelay(recorded: int) returns (d: int)
      ensures d == Bump(recorded, initial, max)
    {
      d := recorded;
      if d == 0 {
        d := initial;
      } else {
        d := Wrap64(d * 2);
        if d > max {
          d := max;
        }
      }
    }

    method Fail(key: string, now: int)
      requires Valid()
      modifies this
      ensures Valid() && streaks == Next(old(streaks), Event.Fail(key, now))
    {
      if key == "" {
        return;
      }
      OneMoreFailure(next, delay, streaks, key, now, initial, max);
      var d := NextDelay(if key in delay then delay[key] else 0);
      delay := delay[key := d];
      next := next[key := now + d];
      streaks := Next(streaks, Event.Fail(key, now));
    }

    method Reset(key: string)
      requires Valid()
      modifies this
      ensures Valid() && streaks == Next(old(streaks), Event.Reset(key))
    {
      if key == "" {
        assert streaks - {key} == streaks;
        return;
      }
      next, delay := next - {key}, delay - {key};
      streaks := streaks - {key};
    }

    /** One peer of a reconnect pass: gate, dial, and record the outcome. */
    method Reconnect(key: string, now: int, outcome: Outcome, after: int) returns (tried: bool)
      requires Valid()
      modifies this
      ensures Valid() && (tried <==> old(Admits(streaks, key, now, initial, max)))
      ensures streaks == if tried then Next(old(streaks), EventOf(key, outcome, after)) else old(streaks)
      ensures tried && outcome.Failed? && key != "" ==>
        key in streaks && streaks[key] == Streak(FailsOf(old(streaks), key) + 1, after)
      ensures tried && outcome.Connected? ==> key !in streaks
      ensures outcome.Refused? ==> streaks == old(streaks)
      ensures forall k :: k != key ==> (k in streaks <==> k in old(streaks)) && (k in streaks ==> streaks[k] == old(streaks)[k])
    {
      tried := Allow(key, now);
      if !tried {
        return;
      }
      match outcome
      case Refused =>
      case Failed => Fail(key, after);
      case Connected => Reset(key);
    }
  }

  /** How a dial ends; it is refused when the peer is already being dialled. */
  datatype Outcome = Connected | Failed | Refused

  function EventOf(key: string, outcome: Outcome, after: int): Event {
    match outcome
    case Connected => Event.Reset(key)
    case Failed => Event.Fail(key, after)
    case Refused => AlreadyDialing(key)
  }
}

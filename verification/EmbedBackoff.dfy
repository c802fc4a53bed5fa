/** The rate-limit retry around an embedding call. Delays are milliseconds, the jitter an exact ratio. */
module EmbedBackoff {
  import opened Collections

  const MAX_RATE_LIMIT_RETRIES: nat := 5
  const RATE_LIMIT_FALLBACK_MS: nat := 60000
  const RATE_LIMIT_PAD_MS: nat := 500
  const CAUSE_DEPTH: nat := 5

  /** An error and its causes by depth, each with its status; a cyclic chain never ends. */
  type Chain = nat -> Option<int>

  /** The walk finds a 429 exactly if one of the first five errors of the chain carries it. */
  method Detect429FromCause(c: Chain) returns (found: bool)
    ensures found <==>
      exists d: nat :: d < 5 && c(d) == Some(429) && forall e: nat :: e < d ==> c(e).Some?
  {
    var depth := 0;
    while depth < CAUSE_DEPTH && c(depth).Some?
      invariant forall d: nat :: d < depth ==> c(d).Some? && c(d) != Some(429)
    {
      if c(depth).value == 429 {
        return true;
      }
      depth := depth + 1;
    }
    return false;
  }

  /** What the message says about when to come back. */
  datatype Hint = Millis(n: nat) | Seconds(s: real) | Silent

  function Ceil(x: real): int {
    if x == x.Floor as real then x.Floor else x.Floor + 1
  }

  function BaseDelay(h: Hint): int {
    match h
    case Millis(n) => n + RATE_LIMIT_PAD_MS
    case Seconds(s) => Ceil(s * 1000.0) + RATE_LIMIT_PAD_MS
    case Silent => RATE_LIMIT_FALLBACK_MS
  }

  function JitterFactor(random: real): real {
    1.0 + (random * 2.0 - 1.0) * 0.3
  }

  function Scaled(delay: int, factor: real): real {
    delay as real * factor
  }

  function RetryDelay(h: Hint, random: real): int {
    var jittered := Scaled(BaseDelay(h), JitterFactor(random)).Floor;
    if jittered > 1 then jittered else 1
  }

  lemma BaseDelayPadded(h: Hint)
    requires h.Seconds? ==> h.s >= 0.0
    ensures BaseDelay(h) >= 500
    ensures match h
      case Millis(n) => BaseDelay(h) == n + 500
      case Seconds(s) => 1000.0 * s + 500.0 <= BaseDelay(h) as real < 1000.0 * s + 501.0
      case Silent => BaseDelay(h) == 60000
  {
  }

  lemma FactorBounds(random: real)
    requires 0.0 <= random < 1.0
    ensures 0.7 <= JitterFactor(random) < 1.3
  {
  }

  /**
   The jittered delay stays within 30% of the hint padded by 500 ms, or of a minute if there is none, so it
   is never shorter than 350 ms.
   */
  lemma DelayWithinJitter(h: Hint, random: real)
    requires 0.0 <= random < 1.0 && (h.Seconds? ==> h.s >= 0.0)
    ensures match h
      case Millis(n) => 7 * (n + 500) - 10 < 10 * RetryDelay(h, random) < 13 * (n + 500)
      case Seconds(s) =>
        && 7.0 * (1000.0 * s + 500.0) - 10.0 < 10.0 * RetryDelay(h, random) as real
        && 10.0 * RetryDelay(h, random) as real < 13.0 * (1000.0 * s + 501.0)
      case Silent => 42000 <= RetryDelay(h, random) < 78000
    ensures RetryDelay(h, random) >= 350
  {
    DelayNearBase(h, random);
    BaseDelayPadded(h);
    hide BaseDelay, RetryDelay;
    if h.Seconds? {
      SecondsBetween(h.s, BaseDelay(h), RetryDelay(h, random));
    }
  }

  lemma DelayNearBase(h: Hint, random: real)
    requires 0.0 <= random < 1.0 && (h.Seconds? ==> h.s >= 0.0)
    ensures 7 * BaseDelay(h) - 10 < 10 * RetryDelay(h, random) < 13 * BaseDelay(h)
    ensures RetryDelay(h, random) >= 350
  {
    BaseDelayPadded(h);
    FactorBounds(random);
    hide BaseDelay, JitterFactor, Scaled;
    JitterWithin(BaseDelay(h), JitterFactor(random));
  }

  lemma JitterWithin(d: int, f: real)
    requires d >= 500 && 0.7 <= f < 1.3
    ensures var delay := Scaled(d, f).Floor; 7 * d - 10 < 10 * delay < 13 * d && delay >= 350
  {
    ScaledBetween(d, f);
    hide Scaled;
    FloorBetween(d, Scaled(d, f));
  }

  lemma SecondsBetween(s: real, d: int, delay: int)
    requires 1000.0 * s + 500.0 <= d as real < 1000.0 * s + 501.0
    requires 7 * d - 10 < 10 * delay < 13 * d
    ensures 7.0 * (1000.0 * s + 500.0) - 10.0 < 10.0 * delay as real
    ensures 10.0 * delay as real < 13.0 * (1000.0 * s + 501.0)
  {
    assert (7 * d - 10) as real == 7.0 * d as real - 10.0;
    assert (10 * delay) as real == 10.0 * delay as real && (13 * d) as real == 13.0 * d as real;
  }

  /** The jitter spreads over all of that: the middle draw leaves the delay as it is, the lowest takes 30% off. */
  lemma JitterSpans(n: nat)
    ensures RetryDelay(Millis(n), 0.5) == n + 500
    ensures RetryDelay(Millis(n), 0.0) == (7 * (n + 500)) / 10
    ensures forall a: real, b: real :: 0.0 <= a <= b < 1.0 ==> RetryDelay(Millis(n), a) <= RetryDelay(Millis(n), b)
  {
    assert JitterFactor(0.5) == 1.0 && JitterFactor(0.0) == 0.7;
    assert Scaled(n + 500, 1.0) == (n + 500) as real;
    SevenTenths(n + 500);
    forall a: real, b: real | 0.0 <= a <= b < 1.0 ensures RetryDelay(Millis(n), a) <= RetryDelay(Millis(n), b) {
      assert JitterFactor(a) <= JitterFactor(b);
      ScaledGrows(n + 500, JitterFactor(a), JitterFactor(b));
    }
  }

  lemma SevenTenths(d: nat)
    ensures Scaled(d, 0.7).Floor == (7 * d) / 10
  {
    assert Scaled(d, 0.7) * 10.0 == (7 * d) as real;
    var q := (7 * d) / 10;
    assert 10 * q <= 7 * d < 10 * q + 10;
    assert (10 * q) as real == 10.0 * q as real;
  }

  lemma ScaledGrows(d: nat, f: real, g: real)
    requires f <= g
    ensures Scaled(d, f).Floor <= Scaled(d, g).Floor
  {
    assert d as real * (g - f) >= 0.0;
  }

  lemma FloorBetween(d: int, x: real)
    requires d >= 500 && d as real * 0.7 <= x < d as real * 1.3
    ensures 7 * d - 10 < 10 * x.Floor < 13 * d && x.Floor >= 350
  {
  }

  lemma ScaledBetween(d: int, f: real)
    requires d >= 500 && 0.7 <= f < 1.3
    ensures d as real * 0.7 <= Scaled(d, f) < d as real * 1.3
  {
    var r := d as real;
    assert r * (f - 0.7) >= 0.0;
    assert r * (1.3 - f) > 0.0;
  }

  /** One attempt: whether the budget was gone before it, and what the call did. */
  datatype Attempt<V> = Attempt(gone: bool, call: Call<V>)
  datatype Call<V> = Vectors(v: V) | Failed(error: string, rateLimited: bool, goneNow: bool)

  datatype Result<V> = Embedded(v: V) | Aborted | Thrown(error: string)

  /** An attempt that is followed by another one. */
  predicate Retries<V>(a: Attempt<V>) {
    !a.gone && a.call.Failed? && a.call.rateLimited && !a.call.goneNow
  }

  function Conclude<V>(a: Attempt<V>): Result<V> {
    if a.gone then Aborted
    else match a.call
      case Vectors(v) => Embedded(v)
      case Failed(e, _, _) => Thrown(e)
  }

  /**
   The result is that of the first attempt not to be retried, or of the sixth: the statement after the
   loop is never reached, and an abort or another error is passed on at once.
   */
  method EmbedBatchWithBackoff<V>(attempts: nat -> Attempt<V>) returns (r: Result<V>, last: nat)
    ensures last <= 5
    ensures forall k: nat :: k < last ==>
              !attempts(k).gone && attempts(k).call.Failed? && attempts(k).call.rateLimited && !attempts(k).call.goneNow
    ensures var a := attempts(last);
      && (a.gone ==> r == Aborted)
      && (!a.gone && a.call.Vectors? ==> r == Embedded(a.call.v))
      && (!a.gone && a.call.Failed? ==>
            r == Thrown(a.call.error) && (last == 5 || !a.call.rateLimited || a.call.goneNow))
    ensures r.Embedded? <==>
      exists n: nat :: n <= 5 && !attempts(n).gone && attempts(n).call.Vectors? && forall k: nat :: k < n ==>
        !attempts(k).gone && attempts(k).call.Failed? && attempts(k).call.rateLimited && !attempts(k).call.goneNow
  {
    var attempt := 0;
    while attempt <= MAX_RATE_LIMIT_RETRIES
      invariant attempt <= MAX_RATE_LIMIT_RETRIES
      invariant forall k: nat :: k < attempt ==> Retries(attempts(k))
      decreases MAX_RATE_LIMIT_RETRIES + 1 - attempt
    {
      var a := attempts(attempt);
      if a.gone {
        return Aborted, attempt;
      }
      if a.call.Vectors? {
        return Embedded(a.call.v), attempt;
      }
      if a.call.goneNow {
        return Thrown(a.call.error), attempt;
      }
      if !a.call.rateLimited || attempt == MAX_RATE_LIMIT_RETRIES {
        return Thrown(a.call.error), attempt;
      }
      attempt := attempt + 1;
    }
    assert false;
  }

  /** A batch is embedded exactly if a call succeeds after at most five rate-limited ones and before the budget ends. */
  lemma EmbedsExactly<V(!new)>(attempts: nat -> Attempt<V>, r: Result<V>, last: nat)
    requires last <= 5 && r == Conclude(attempts(last)) && forall k: nat :: k < last ==> Retries(attempts(k))
    requires last < 5 ==> !Retries(attempts(last))
    ensures r.Embedded? <==>
      exists n: nat :: n <= 5 && !attempts(n).gone && attempts(n).call.Vectors? && forall k: nat :: k < n ==>
        !attempts(k).gone && attempts(k).call.Failed? && attempts(k).call.rateLimited && !attempts(k).call.goneNow
  {
    if n: nat :| n <= 5 && !attempts(n).gone && attempts(n).call.Vectors? && forall k: nat :: k < n ==>
      Retries(attempts(k))
    {
      assert n == last;
    }
  }
}

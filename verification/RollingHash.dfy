/**
 Rolling two-lane polynomial fingerprints modulo 2^64
 (crates/analysis-dry/src/lib.rs, `for_each_fingerprinted_window` and `wrapping_pow`).
 The reference is the polynomial over the unbounded integers, reduced once.
 */
module RollingHash {

  const WORD: int := 0x1_0000_0000_0000_0000

  type Word = x: int | 0 <= x < WORD

  const WINDOW_BASE_FIRST: Word := 0x9e37_79b1_85eb_ca87
  const WINDOW_BASE_SECOND: Word := 0xc2b2_ae3d_27d4_eb4f

  function WrappingMul(a: Word, b: Word): Word { a * b % WORD }
  function WrappingAdd(a: Word, b: Word): Word { (a + b) % WORD }
  function WrappingSub(a: Word, b: Word): Word { (a - b) % WORD }

  datatype Fingerprint = Fingerprint(first: Word, second: Word) {
    function Append(token: Fingerprint): Fingerprint {
      Fingerprint(
        WrappingAdd(WrappingMul(first, WINDOW_BASE_FIRST), token.first),
        WrappingAdd(WrappingMul(second, WINDOW_BASE_SECOND), token.second))
    }
  }

  const ZERO := Fingerprint(0, 0)

  datatype Lane = First | Second

  function Base(lane: Lane): Word {
    if lane.First? then WINDOW_BASE_FIRST else WINDOW_BASE_SECOND
  }

  function Get(f: Fingerprint, lane: Lane): Word {
    if lane.First? then f.first else f.second
  }

  // ----- reference: exact integer polynomials -----

  ghost function Pow(b: int, e: nat): int {
    if e == 0 then 1 else Pow(b, e - 1) * b
  }

  /** The polynomial whose coefficients are the tokens of the window, first token most significant. */
  ghost function Polynomial(tokens: seq<Fingerprint>, lane: Lane): int {
    if tokens == [] then
      0
    else
      Polynomial(tokens[..|tokens| - 1], lane) * Base(lane) + Get(tokens[|tokens| - 1], lane)
  }

  ghost function Direct(tokens: seq<Fingerprint>): Fingerprint {
    Fingerprint(Polynomial(tokens, First) % WORD, Polynomial(tokens, Second) % WORD)
  }

  // ----- modular arithmetic -----

  lemma ModShift(x: int, k: int, m: int)
    requires m > 0
    ensures (x + k * m) % m == x % m
  {
    var q, r := x / m, x % m;
    assert x + k * m == (q + k) * m + r;
    ModUnique(x + k * m, q + k, r, m);
  }

  lemma ModUnique(x: int, q: int, r: int, m: int)
    requires 0 <= r < m && x == q * m + r
    ensures x % m == r
  {
    var q', r' := x / m, x % m;
    assert (q - q') * m == r' - r;
    MulBound(q - q', m);
  }

  lemma MulBound(k: int, m: int)
    requires m > 0
    ensures k >= 1 ==> k * m >= m
    ensures k <= -1 ==> k * m <= -m
  {
  }

  lemma ModAdd(x: int, y: int)
    ensures (x % WORD + y) % WORD == (x + y) % WORD
  {
    ModShift(x % WORD + y, x / WORD, WORD);
    assert x == x % WORD + (x / WORD) * WORD;
  }

  lemma ModSub(x: int, y: int)
    ensures (x - y % WORD) % WORD == (x - y) % WORD
  {
    ModShift(x - y, y / WORD, WORD);
    assert y == y % WORD + (y / WORD) * WORD;
  }

  lemma ModMul(x: int, y: int)
    ensures (x % WORD) * y % WORD == x * y % WORD
  {
    var q := x / WORD;
    assert x == x % WORD + q * WORD;
    assert x * y == (x % WORD) * y + (q * y) * WORD;
    ModShift((x % WORD) * y, q * y, WORD);
  }

  // ----- square and multiply -----

  lemma {:induction false} PowAdd(b: int, x: nat, y: nat)
    ensures Pow(b, x + y) == Pow(b, x) * Pow(b, y)
  {
    if y != 0 {
      PowAdd(b, x, y - 1);
      assert Pow(b, x + y) == Pow(b, x + (y - 1)) * b;
      assert Pow(b, x) * Pow(b, y - 1) * b == Pow(b, x) * (Pow(b, y - 1) * b);
    }
  }

  lemma {:induction false} PowSquare(b: int, e: nat)
    ensures Pow(b * b, e) == Pow(b, 2 * e)
  {
    if e != 0 {
      PowSquare(b, e - 1);
      assert Pow(b, 2 * e) == Pow(b, 2 * (e - 1)) * b * b;
      assert Pow(b, 2 * (e - 1)) * b * b == Pow(b, 2 * (e - 1)) * (b * b);
    }
  }

  lemma {:induction false} PowMod(b: int, e: nat)
    ensures Pow(b % WORD, e) % WORD == Pow(b, e) % WORD
  {
    if e != 0 {
      PowMod(b, e - 1);
      var p, p' := Pow(b, e - 1), Pow(b % WORD, e - 1);
      ModMul(p', b % WORD);
      ModMul(p, b % WORD);
      assert p * (b % WORD) == (b % WORD) * p;
      ModMul(b, p);
      assert b * p == p * b;
    }
  }

  /** One round of square-and-multiply keeps result * base^exponent modulo 2^64. */
  lemma PowRound(result: Word, base: Word, exponent: nat)
    requires exponent > 0
    ensures var odd := if exponent % 2 == 1 then WrappingMul(result, base) else result;
            odd * Pow(WrappingMul(base, base), exponent / 2) % WORD == result * Pow(base, exponent) % WORD
  {
    var half := exponent / 2;
    var odd := if exponent % 2 == 1 then WrappingMul(result, base) else result;
    var squared := Pow(base * base, half);
    PowMod(base * base, half);
    PowSquare(base, half);
    calc {
      odd * Pow(WrappingMul(base, base), half) % WORD;
      { ModMulSecond(odd, Pow(WrappingMul(base, base), half)); }
      odd * (Pow(WrappingMul(base, base), half) % WORD) % WORD;
      odd * (squared % WORD) % WORD;
      { ModMulSecond(odd, squared); }
      odd * squared % WORD;
    }
    if exponent % 2 == 1 {
      assert exponent == 2 * half + 1;
      ModMul(result * base, squared);
      assert odd * squared % WORD == result * base * squared % WORD;
      assert result * base * squared == result * (squared * base) by {
        assert base * squared == squared * base;
        assert result * base * squared == result * (base * squared);
      }
    } else {
      assert exponent == 2 * half;
    }
  }

  lemma ModMulSecond(x: int, y: int)
    ensures x * (y % WORD) % WORD == x * y % WORD
  {
    ModMul(y, x);
    assert (y % WORD) * x == x * (y % WORD);
    assert x * y == y * x;
  }

  method WrappingPow(base: Word, exponent: nat) returns (result: Word)
    ensures result == Pow(base, exponent) % WORD
  {
    result := 1;
    var b, e := base, exponent;
    while e > 0
      invariant result * Pow(b, e) % WORD == Pow(base, exponent) % WORD
    {
      PowRound(result, b, e);
      if e % 2 == 1 {
        result := WrappingMul(result, b);
      }
      b := WrappingMul(b, b);
      e := e / 2;
    }
  }

  // ----- the rolling step -----

  lemma AppendDirect(tokens: seq<Fingerprint>, token: Fingerprint)
    ensures Direct(tokens).Append(token) == Direct(tokens + [token])
  {
    var extended := tokens + [token];
    assert extended[..|extended| - 1] == tokens;
    AppendLane(tokens, token, First);
    AppendLane(tokens, token, Second);
  }

  lemma AppendLane(tokens: seq<Fingerprint>, token: Fingerprint, lane: Lane)
    ensures WrappingAdd(WrappingMul(Polynomial(tokens, lane) % WORD, Base(lane)), Get(token, lane))
         == Polynomial(tokens + [token], lane) % WORD
  {
    var extended := tokens + [token];
    assert extended[..|extended| - 1] == tokens;
    var p := Polynomial(tokens, lane);
    ModMul(p, Base(lane));
    ModAdd(p * Base(lane), Get(token, lane));
  }

  /** The first token of a window carries the highest power of the base. */
  lemma {:induction false} PolynomialHead(token: Fingerprint, rest: seq<Fingerprint>, lane: Lane)
    ensures Polynomial([token] + rest, lane)
         == Get(token, lane) * Pow(Base(lane), |rest|) + Polynomial(rest, lane)
  {
    var all := [token] + rest;
    if rest == [] {
      assert all[..|all| - 1] == [];
    } else {
      var front := rest[..|rest| - 1];
      var b := Base(lane);
      assert all[..|all| - 1] == [token] + front;
      PolynomialHead(token, front, lane);
      Distribute(Get(token, lane), Pow(b, |front|), Polynomial(front, lane), b);
    }
  }

  lemma Distribute(t: int, p: int, q: int, b: int)
    ensures (t * p + q) * b == t * (p * b) + q * b
  {
    assert t * p * b == t * (p * b);
  }

  function RollLane(window: Word, outgoing: Word, power: Word, base: Word, incoming: Word): Word {
    WrappingAdd(WrappingMul(WrappingSub(window, WrappingMul(outgoing, power)), base), incoming)
  }

  /** Removing the outgoing token and appending the incoming one gives the next window's value. */
  lemma RollDirect(outgoing: Fingerprint, middle: seq<Fingerprint>, incoming: Fingerprint, lane: Lane)
    ensures RollLane(
              Polynomial([outgoing] + middle, lane) % WORD,
              Get(outgoing, lane),
              Pow(Base(lane), |middle|) % WORD,
              Base(lane),
              Get(incoming, lane))
         == Polynomial(middle + [incoming], lane) % WORD
  {
    PolynomialHead(outgoing, middle, lane);
    DropHead(Get(outgoing, lane), Pow(Base(lane), |middle|), Polynomial(middle, lane), Polynomial([outgoing] + middle, lane));
    AppendLane(middle, incoming, lane);
  }

  lemma DropHead(o: Word, p: int, m: int, w: int)
    requires w == o * p + m
    ensures WrappingSub(w % WORD, WrappingMul(o, p % WORD)) == m % WORD
  {
    ModMulSecond(o, p);
    Difference(o * p, m);
  }

  lemma Difference(x: int, m: int)
    ensures ((x + m) % WORD - x % WORD) % WORD == m % WORD
  {
    ModAdd(x + m, -(x % WORD));
    ModSub(x + m, x);
  }

  /** Both lanes of a window moved one token on. */
  function Rolled(window: Fingerprint, outgoing: Fingerprint, firstPower: Word, secondPower: Word,
                  incoming: Fingerprint): Fingerprint
  {
    Fingerprint(
      RollLane(window.first, outgoing.first, firstPower, WINDOW_BASE_FIRST, incoming.first),
      RollLane(window.second, outgoing.second, secondPower, WINDOW_BASE_SECOND, incoming.second))
  }

  lemma RollWindow(tokens: seq<Fingerprint>, start: nat, size: nat, firstPower: Word, secondPower: Word)
    requires size >= 1 && 1 <= start && start + size <= |tokens|
    requires firstPower == Pow(WINDOW_BASE_FIRST, size - 1) % WORD
    requires secondPower == Pow(WINDOW_BASE_SECOND, size - 1) % WORD
    ensures (Rolled(Direct(tokens[start - 1..start - 1 + size]), tokens[start - 1], firstPower, secondPower,
                    tokens[start + size - 1])
          == Direct(tokens[start..start + size]))
  {
    var outgoing, incoming := tokens[start - 1], tokens[start + size - 1];
    var middle := tokens[start..start + size - 1];
    assert tokens[start - 1..start - 1 + size] == [outgoing] + middle;
    assert tokens[start..start + size] == middle + [incoming];
    RollDirect(outgoing, middle, incoming, First);
    RollDirect(outgoing, middle, incoming, Second);
  }

  ghost function WindowCount(length: nat, size: nat): nat {
    if length < size then 0 else length - size + 1
  }

  /**
   The callback of the program is called once for each start, in order; `keys` lists
   the fingerprints it receives.
   */
  method WindowFingerprints(tokens: seq<Fingerprint>, size: nat) returns (keys: seq<Fingerprint>)
    requires size >= 1
    ensures |keys| == WindowCount(|tokens|, size)
    ensures forall start :: 0 <= start < |keys| ==> keys[start] == Direct(tokens[start..start + size])
  {
    keys := [];
    if |tokens| < size {
      return;
    }
    var firstPower := WrappingPow(WINDOW_BASE_FIRST, size - 1);
    var secondPower := WrappingPow(WINDOW_BASE_SECOND, size - 1);
    var window := ZERO;
    for i := 0 to size
      invariant window == Direct(tokens[..i])
    {
      AppendDirect(tokens[..i], tokens[i]);
      assert tokens[..i] + [tokens[i]] == tokens[..i + 1];
      window := window.Append(tokens[i]);
    }
    assert tokens[0..0 + size] == tokens[..size];
    keys := [window];
    for start := 1 to |tokens| - size + 1
      invariant |keys| == start
      invariant window == Direct(tokens[start - 1..start - 1 + size])
      invariant forall i :: 0 <= i < |keys| ==> keys[i] == Direct(tokens[i..i + size])
    {
      var outgoing, incoming := tokens[start - 1], tokens[start + size - 1];
      RollWindow(tokens, start, size, firstPower, secondPower);
      window := Rolled(window, outgoing, firstPower, secondPower, incoming);
      keys := keys + [window];
    }
  }
}

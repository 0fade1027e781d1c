/** Fan speed and tachometer count: two integer divisions of one constant, and the split over two registers. */
module Fan {
  type byte = b: int | 0 <= b < 256

  const CLOCK_FREQ_HZ: nat := 32768
  const FAN_POLES: nat := 2
  const MAX_COUNT: nat := 8191

  // ---- the constant the configuration selects ----

  function Edges(config: byte): nat {
    config / 8 % 4
  }

  function Range(config: byte): nat {
    config / 32 % 4
  }

  function Power2(k: nat): nat {
    if k == 0 then 1 else 2 * Power2(k - 1)
  }

  /** The product of count and speed, a multiple of 2^16 that fits 32 bits for every configuration. */
  function Product(config: byte): (k: nat)
    ensures 65536 <= k < 0x1_0000_0000 && k == k / 65536 * 65536
  {
    var base := CLOCK_FREQ_HZ * 60 / FAN_POLES;
    var edges := 2 * (1 + Edges(config));
    RangeMultiplier(Range(config));
    Multiplied(edges, Power2(Range(config)));
    base * edges * Power2(Range(config))
  }

  lemma RangeMultiplier(range: nat)
    requires range < 4
    ensures Power2(range) in {1, 2, 4, 8}
  {
    assert Power2(1) == 2 && Power2(2) == 4 && Power2(3) == 8;
  }

  lemma Multiplied(edges: nat, multiplier: nat)
    requires 2 <= edges <= 8 && multiplier in {1, 2, 4, 8}
    ensures var k := 983040 * edges * multiplier; 65536 <= k < 0x1_0000_0000 && k == k / 65536 * 65536
  {
    assert 983040 * edges * multiplier == 65536 * (15 * edges * multiplier);
  }

  /**
   * The data sheet's (edges - 1) * multiplier * frequency * 60 / poles, for 3, 5, 7 or 9 edges by bits 3 and 4 of the
   * configuration, and a multiplier of 1, 2, 4 or 8 by bits 5 and 6.
   */
  lemma ProductIs(config: byte)
    ensures Product(config) == [2, 4, 6, 8][config / 8 % 4] * [1, 2, 4, 8][config / 32 % 4] * 983040
  {
    assert Power2(0) == 1 && Power2(1) == 2 && Power2(2) == 4 && Power2(3) == 8;
  }

  function Truncated(x: nat): nat {
    x % 65536
  }

  function Quotient(k: nat, d: nat): nat
    requires d > 0
  {
    k / d
  }

  function CountToRpm(config: byte, count: nat): nat
    requires count > 0
  {
    Truncated(Quotient(Product(config), count))
  }

  function RpmToCount(config: byte, rpm: nat): nat
    requires rpm > 0
  {
    Truncated(Quotient(Product(config), rpm))
  }

  // ---- dividing there and back ----

  lemma DivisionIs(k: nat, d: nat)
    requires d > 0
    ensures k / d * d <= k < k / d * d + d
  {
  }

  lemma AtLeast(k: nat, d: nat, q: nat)
    requires d > 0 && q * d <= k
    ensures q <= k / d
  {
    DivisionIs(k, d);
    if k / d < q {
      Times(k / d + 1, q, d);
    }
  }

  lemma Times(a: nat, b: nat, d: nat)
    requires a <= b
    ensures a * d <= b * d && d * a <= d * b
  {
  }

  lemma LargerDivisor(k: nat, d: nat, e: nat)
    requires 0 < d <= e
    ensures k / e <= k / d
  {
    DivisionIs(k, e);
    Times(d, e, k / e);
    AtLeast(k, d, k / e);
  }

  /** Dividing the quotient back into the number gives no less than the divisor, and the third time the quotient again. */
  lemma DivideThrice(k: nat, r: nat)
    requires 0 < r <= k
    ensures k / r > 0 && k / (k / r) >= r && k / (k / (k / r)) == k / r
  {
    AtLeast(k, r, 1);
    var c := k / r;
    DivisionIs(k, r);
    AtLeast(k, c, r);
    var r2 := k / c;
    DivisionIs(k, c);
    AtLeast(k, r2, c);
    LargerDivisor(k, r, r2);
  }

  /** Below 2^16 the quotient never drops under a 65536th of the number, and only there does it come back as 2^16. */
  lemma OnlyTheLeastCountOverflows(k: nat, j: nat, r: nat)
    requires 0 < r <= 65535 && k == 65536 * j && j > 0
    ensures k / r >= j && (if k / r == j then k / (k / r) == 65536 else k / (k / r) < 65536)
  {
    Times(r, 65536, j);
    AtLeast(k, r, j);
    var c := k / r;
    DivisionIs(k, c);
    if c == j {
      AtLeast(k, j, 65536);
      if k / j > 65536 {
        Times(65537, k / j, j);
      }
    } else if k / c >= 65536 {
      Times(65536, k / c, c);
    }
  }

  /** Asking whether the count is the least one is asking whether the speed is large enough. */
  lemma LeastCountOnSpeeds(k: nat, j: nat, r: nat)
    requires 0 < r && k / r >= j
    ensures k / r == j <==> r * (j + 1) > k
  {
    DivisionIs(k, r);
    if k / r > j {
      Times(j + 1, k / r, r);
    } else if r * (j + 1) <= k {
      AtLeast(k, r, j + 1);
    }
  }

  /** The speeds that are read back as zero: those whose count is the least a 16-bit speed can have. */
  predicate TooFast(config: byte, rpm: nat) {
    rpm * (Product(config) / 65536 + 1) > Product(config)
  }

  /**
   * For every configuration and speed whose count fits the registers: a speed that is too fast is read back as zero;
   * any other is read back as no less than it was, and converts to the same count again.
   */
  lemma SpeedRoundTrip(config: byte, rpm: nat)
    requires 0 < rpm <= 65535 && Product(config) / rpm <= MAX_COUNT
    ensures var count := RpmToCount(config, rpm);
      && count > 0
      && var back := CountToRpm(config, count);
      && (back == 0 <==> TooFast(config, rpm))
      && (!TooFast(config, rpm) ==> back >= rpm && RpmToCount(config, back) == count)
  {
    var k := Product(config);
    DivideThrice(k, rpm);
    OnlyTheLeastCountOverflows(k, k / 65536, rpm);
    LeastCountOnSpeeds(k, k / 65536, rpm);
    NotTruncated(k / rpm);
    if k / rpm != k / 65536 {
      NotTruncated(k / (k / rpm));
    }
  }

  /** For the smallest product, with all four configuration bits clear, 64000 rpm are too fast and 63000 are not. */
  lemma FastSpeedsReadZero(config: byte)
    requires Edges(config) == 0 && Range(config) == 0
    ensures Product(config) == 1966080
    ensures TooFast(config, 64000) && !TooFast(config, 63000)
    ensures RpmToCount(config, 64000) == 30 && CountToRpm(config, 30) == 0
  {
    assert Power2(0) == 1;
  }

  lemma NotTruncated(x: nat)
    requires x < 65536
    ensures Truncated(x) == x
  {
  }

  /** A count is the product divided by the speed, rounded down, and so the other way round, as far as 16 bits go. */
  lemma CountsAreQuotients(config: byte, rpm: nat)
    requires rpm > 0
    ensures var q := Product(config) / rpm;
      && q * rpm <= Product(config) < q * rpm + rpm
      && RpmToCount(config, rpm) == CountToRpm(config, rpm) == q % 65536
  {
    DivisionIs(Product(config), rpm);
  }

  // ---- the registers ----

  /** The low and high register for a count, as the two shifts leave them in eight bits. */
  function LowRegister(count: nat): byte {
    count * 8 % 256
  }

  function HighRegister(count: nat): byte {
    count / 32 % 256
  }

  function Joined(low: byte, high: byte): nat {
    high * 32 + low / 8
  }

  /** Thirteen bits survive the registers, and no more. */
  lemma RegistersHoldThirteenBits(count: nat)
    ensures Joined(LowRegister(count), HighRegister(count)) == count <==> count <= MAX_COUNT
  {
    assert count * 8 % 256 == count % 32 * 8;
  }

  /** The high register holds a count's upper eight bits, the low one its lower five, at the top. */
  lemma RegistersAre(count: nat)
    requires count <= 8191
    ensures HighRegister(count) == count / 32 && LowRegister(count) == 8 * (count % 32)
  {
    assert count * 8 % 256 == count % 32 * 8;
  }
}

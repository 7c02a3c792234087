/**
 * Player identifiers `"Player_" + n` (ClientManager.cs:51), where n is the
 * registry's counter rendered in decimal as C#'s int formatting does for a
 * positive value. The rendering is proved injective through a parser that
 * inverts it, so distinct counter values always give distinct identifiers.
 *
 * The module also holds the counter as the source declares it, a 32-bit
 * `int` incremented without overflow checking, and shows that this counter
 * reissues identifiers; the registry model uses an unbounded counter.
 */
module PlayerIds {
  import opened Wrappers

  const Prefix: string := "Player_"

  predicate IsDigit(c: char) {
    '0' <= c <= '9'
  }

  function DigitChar(d: nat): (c: char)
    requires d < 10
    ensures IsDigit(c) && DigitValue(c) == d
  {
    ('0' as int + d) as char
  }

  function DigitValue(c: char): nat
    requires IsDigit(c)
  {
    c as int - '0' as int
  }

  /** Decimal rendering of a natural number, most significant digit first, no leading zeros. */
  function Decimal(n: nat): (s: string)
    ensures |s| >= 1
    ensures forall i | 0 <= i < |s| :: IsDigit(s[i])
    decreases n
  {
    if n < 10 then [DigitChar(n)] else Decimal(n / 10) + [DigitChar(n % 10)]
  }

  /** The number a non-empty string of decimal digits denotes; None for anything else. */
  function ParseDecimal(s: string): Option<nat>
    decreases |s|
  {
    if |s| == 0 || !IsDigit(s[|s| - 1]) then None
    else if |s| == 1 then Some(DigitValue(s[0]))
    else match ParseDecimal(s[..|s| - 1])
      case None => None
      case Some(high) => Some(high * 10 + DigitValue(s[|s| - 1]))
  }

  /** Parsing undoes the rendering. */
  lemma {:induction false} ParseDecimalOfDecimal(n: nat)
    ensures ParseDecimal(Decimal(n)) == Some(n)
    decreases n
  {
    if n >= 10 {
      var s := Decimal(n);
      ParseDecimalOfDecimal(n / 10);
      assert s[..|s| - 1] == Decimal(n / 10);
      assert s[|s| - 1] == DigitChar(n % 10);
    }
  }

  /** The identifier handed out for counter value n. */
  function PlayerId(n: nat): (id: string)
    ensures |id| > |Prefix| && id[..|Prefix|] == Prefix
    ensures forall i | |Prefix| <= i < |id| :: IsDigit(id[i])
  {
    Prefix + Decimal(n)
  }

  /** The counter value an identifier was rendered from, if it has the identifier's shape. */
  function ParsePlayerId(id: string): Option<nat> {
    if |id| >= |Prefix| && id[..|Prefix|] == Prefix then ParseDecimal(id[|Prefix|..]) else None
  }

  /** Every identifier parses back to the counter value it was made from. */
  lemma ParsePlayerIdOfPlayerId(n: nat)
    ensures ParsePlayerId(PlayerId(n)) == Some(n)
  {
    var id := PlayerId(n);
    assert id[..|Prefix|] == Prefix;
    assert id[|Prefix|..] == Decimal(n);
    ParseDecimalOfDecimal(n);
  }

  /** Two counter values give the same identifier exactly when they are equal. */
  lemma PlayerIdInjective(a: nat, b: nat)
    ensures PlayerId(a) == PlayerId(b) <==> a == b
  {
    ParsePlayerIdOfPlayerId(a);
    ParsePlayerIdOfPlayerId(b);
  }

  // ---------------------------------------------------------------------
  // The counter as written: a C# `int` starting at 1, post-incremented
  // with the default unchecked arithmetic, so it wraps from 2^31 - 1 to -2^31.

  const Int32Min: int := -0x8000_0000
  const Int32Max: int := 0x7fff_ffff

  /** Two's-complement truncation of an integer to 32 bits. */
  function WrapInt32(x: int): (r: int)
    ensures Int32Min <= r <= Int32Max
    ensures (r - x) % 0x1_0000_0000 == 0
  {
    (x - Int32Min) % 0x1_0000_0000 + Int32Min
  }

  /** `_nextPlayerId++` on a 32-bit counter. */
  function Int32Increment(counter: int): int {
    WrapInt32(counter + 1)
  }

  /** The value `_nextPlayerId` holds after k first-time connects, as written. */
  function CounterAsWritten(k: nat): (counter: int)
    ensures Int32Min <= counter <= Int32Max
    decreases k
  {
    if k == 0 then 1 else Int32Increment(CounterAsWritten(k - 1))
  }

  /**
   * The identifier the (k+1)-th first-time connect receives, as written.
   * Until the counter overflows it is the identifier the unbounded counter gives.
   */
  function IssuedIdAsWritten(k: nat): (id: string)
    ensures k < Int32Max ==> id == PlayerId(1 + k)
  {
    CounterAsWrittenClosedForm(k);
    WrapInt32Identity(1 + k);
    var n := CounterAsWritten(k);
    Prefix + (if n < 0 then "-" + Decimal(-n) else Decimal(n))
  }

  /** Closed form of the as-written counter. */
  lemma {:induction false} CounterAsWrittenClosedForm(k: nat)
    ensures CounterAsWritten(k) == WrapInt32(1 + k)
    decreases k
  {
    if k > 0 {
      CounterAsWrittenClosedForm(k - 1);
      var prev := CounterAsWritten(k - 1);
      assert prev == WrapInt32(k);
      // prev + 1 and 1 + k differ by a multiple of 2^32, so they wrap alike
      assert (prev + 1 - Int32Min) % 0x1_0000_0000 == (1 + k - Int32Min) % 0x1_0000_0000 by {
        ModShift(1 + k - Int32Min, prev - k);
      }
    }
  }

  /** Truncation to 32 bits leaves a value of the int range as it is. */
  lemma WrapInt32Identity(x: int)
    ensures Int32Min <= x <= Int32Max ==> WrapInt32(x) == x
  {
    if Int32Min <= x <= Int32Max {
      assert 0 <= x - Int32Min < 0x1_0000_0000;
    }
  }

  /** Truncation to 32 bits ignores multiples of 2^32. */
  lemma WrapInt32Periodic(x: int, d: int)
    requires d % 0x1_0000_0000 == 0
    ensures WrapInt32(x + d) == WrapInt32(x)
  {
    ModShift(x - Int32Min, d);
  }

  lemma ModShift(x: int, d: int)
    requires d % 0x1_0000_0000 == 0
    ensures (x + d) % 0x1_0000_0000 == x % 0x1_0000_0000
  {
    var q := d / 0x1_0000_0000;
    assert d == q * 0x1_0000_0000;
  }

  /**
   * The as-written counter is periodic: the first-time connect 2^32 places
   * after another one receives the same identifier.
   */
  lemma AsWrittenIdsRepeat(k: nat)
    ensures IssuedIdAsWritten(k + 0x1_0000_0000) == IssuedIdAsWritten(k)
  {
    CounterAsWrittenClosedForm(k);
    CounterAsWrittenClosedForm(k + 0x1_0000_0000);
    ModShift(1 + k - Int32Min, 0x1_0000_0000);
  }

  /**
   * "Player_1", the first identifier issued, is issued again by every
   * first-time connect a multiple of 2^32 places later.
   */
  lemma AsWrittenReissuesFirstId(k: nat)
    requires k % 0x1_0000_0000 == 0
    ensures IssuedIdAsWritten(k) == "Player_1"
  {
    CounterAsWrittenClosedForm(k);
    WrapInt32Periodic(1, k);
    assert WrapInt32(1) == 1;
    assert CounterAsWritten(k) == 1;
    assert IssuedIdAsWritten(k) == PlayerId(1);
    assert Decimal(1) == "1";
  }

  /** For the 2^31-th through (2^32 - 1)-th first-time connects, the as-written counter is negative. */
  lemma AsWrittenCounterGoesNegative(k: nat)
    requires Int32Max <= k < Int32Max + 0x8000_0000
    ensures CounterAsWritten(k) < 0
  {
    CounterAsWrittenClosedForm(k);
    WrapInt32Above(1 + k);
  }

  /** A value between 2^31 and 2^32 + 2^31 - 1 wraps to itself minus 2^32. */
  lemma WrapInt32Above(x: int)
    requires Int32Max < x <= Int32Max + 0x1_0000_0000
    ensures WrapInt32(x) == x - 0x1_0000_0000
  {
    var y := x - Int32Min - 0x1_0000_0000;
    assert 0 <= y < 0x1_0000_0000;
    ModShift(y, 0x1_0000_0000);
  }
}

/** Carrying overflow between the fields of a broken-down time. */
module CalendarCarry {

  /** C's division, which truncates toward zero. */
  function TruncDiv(a: int, b: int): int
    requires b > 0
  {
    if a >= 0 then a / b else -((-a) / b)
  }

  function TruncMod(a: int, b: int): int
    requires b > 0
  {
    a - TruncDiv(a, b) * b
  }

  /** Division corrected to round down: the remainder is never negative. */
  function FloorDiv(dividend: int, divisor: int): (q: int)
    requires divisor > 0
    ensures q * divisor <= dividend < q * divisor + divisor
  {
    Truncation(dividend, divisor);
    TruncDiv(dividend, divisor) - if dividend < 0 && TruncMod(dividend, divisor) != 0 then 1 else 0
  }

  lemma Truncation(a: int, b: int)
    requires b > 0
    ensures if a >= 0 then 0 <= TruncMod(a, b) < b else -b < TruncMod(a, b) <= 0
  {
    var m := if a >= 0 then a else -a;
    assert m == (m / b) * b + m % b;
    Negate(m / b, b);
  }

  lemma Negate(q: int, b: int)
    ensures (-q) * b == -(q * b)
  {}

  /** The part of a field within its modulus, and what is carried to the next field. */
  method CalcOverflow(val: int, modulus: int, nextfield: int) returns (rest: int, nextfield': int)
    requires modulus > 0
    ensures 0 <= rest < modulus && val + nextfield * modulus == rest + nextfield' * modulus
  {
    var carry := FloorDiv(val, modulus);
    nextfield' := nextfield + carry;
    rest := val - carry * modulus;
    Spread(nextfield, carry, modulus);
  }

  lemma Spread(a: int, b: int, m: int)
    ensures (a + b) * m == a * m + b * m
  {}

  class Tm {
    var year: int
    var mon: int
    var mday: int
    var hour: int
    var min: int
    var sec: int

    /** Days, hours, minutes and seconds as a count of seconds. */
    ghost function Seconds(): int
      reads this
    {
      ((mday * 24 + hour) * 60 + min) * 60 + sec
    }

    /** Years and months as a count of months. */
    ghost function Months(): int
      reads this
    {
      year * 12 + mon
    }

    /** Every field is in its range; 24:00:00 and the 60th second of an hour's last minute are allowed. */
    ghost predicate InRange()
      reads this
    {
      1 <= mon <= 12 && TimeInRange()
    }

    /** The time of day is in its range. */
    ghost predicate TimeInRange()
      reads this
    {
      (hour == 24 && min == 0 && sec == 0)
      || (0 <= hour < 24 && 0 <= min < 60 && (0 <= sec < 60 || (sec == 60 && min == 59)))
    }

    /** Brings every field into its range, changing neither count; what is in range stays as it is, so that
        doing it again changes nothing. */
    method Normalize()
      modifies this
      ensures InRange()
      ensures Seconds() == old(Seconds()) && Months() == old(Months())
      ensures old(InRange()) ==> unchanged(this)
      ensures old(TimeInRange()) ==> unchanged(`mday) && unchanged(`hour) && unchanged(`min) && unchanged(`sec)
      ensures 1 <= old(mon) <= 12 ==> unchanged(`mon) && unchanged(`year)
    {
      NormalizeTime();
      if mon < 1 || mon > 12 {
        var m;
        m, year := CalcOverflow(mon - 1, 12, year);
        mon := 1 + m;
      }
    }

    method NormalizeTime()
      modifies `mday, `hour, `min, `sec
      ensures TimeInRange() && Seconds() == old(Seconds())
      ensures old(TimeInRange()) ==> mday == old(mday) && hour == old(hour) && min == old(min) && sec == old(sec)
    {
      if hour == 24 && min == 0 && sec == 0 { return; }
      if sec < 0 || sec > 60 || (sec == 60 && min != 59) {
        sec, min := CalcOverflow(sec, 60, min);
      }
      if min < 0 || min >= 60 {
        min, hour := CalcOverflow(min, 60, hour);
      }
      if hour < 0 || hour >= 24 {
        hour, mday := CalcOverflow(hour, 24, mday);
      }
    }
  }
}

/**
 * Players as the leaderboards see them: a player is known by its UUID,
 * and both backends store the UUID in its canonical text form
 * (`String.valueOf(player.getUuid())`, `player.getUuid().toString()`).
 */
module Players {

  /** The bit pattern of a Java `long`, read as an unsigned number. */
  type Bits64 = n: int | 0 <= n < 0x1_0000_0000_0000_0000

  datatype Uuid = Uuid(mostSigBits: Bits64, leastSigBits: Bits64)

  datatype Player = Player(uuid: Uuid, username: string)

  function Pow16(width: nat): (p: nat)
    ensures p >= 1
  {
    if width == 0 then 1 else 16 * Pow16(width - 1)
  }

  /** Lower-case hexadecimal digit, as `Long.toHexString` writes it. */
  function HexDigit(d: int): char
    requires 0 <= d < 16
  {
    if d < 10 then ('0' as int + d) as char else ('a' as int + d - 10) as char
  }

  /** `width` hexadecimal digits of `n`, most significant first, zero-padded. */
  function Digits(n: nat, width: nat): (s: string)
    requires n < Pow16(width)
    ensures |s| == width
  {
    if width == 0 then [] else Digits(n / 16, width - 1) + [HexDigit(n % 16)]
  }

  /** The 8-4-4-4-12 form of `UUID.toString`. */
  function UuidString(u: Uuid): (s: string)
    ensures |s| == 36
  {
    Digits(u.mostSigBits / 0x1_0000_0000, 8) + "-"
    + Digits(u.mostSigBits / 0x1_0000 % 0x1_0000, 4) + "-"
    + Digits(u.mostSigBits % 0x1_0000, 4) + "-"
    + Digits(u.leastSigBits / 0x1_0000_0000_0000, 4) + "-"
    + Digits(u.leastSigBits % 0x1_0000_0000_0000, 12)
  }

  lemma HexDigitInjective(a: int, b: int)
    requires 0 <= a < 16 && 0 <= b < 16
    ensures HexDigit(a) == HexDigit(b) ==> a == b
  {
  }

  lemma {:induction false} DigitsInjective(n: nat, m: nat, width: nat)
    requires n < Pow16(width) && m < Pow16(width)
    ensures Digits(n, width) == Digits(m, width) ==> n == m
  {
    if width > 0 && Digits(n, width) == Digits(m, width) {
      var dn, dm := Digits(n, width), Digits(m, width);
      assert dn[width - 1] == dm[width - 1];
      HexDigitInjective(n % 16, m % 16);
      assert dn[..width - 1] == Digits(n / 16, width - 1);
      assert dm[..width - 1] == Digits(m / 16, width - 1);
      DigitsInjective(n / 16, m / 16, width - 1);
    }
  }

  /** Distinct players' UUIDs are distinct strings, so neither backend can mix two players' times. */
  lemma UuidStringInjective(u: Uuid, v: Uuid)
    ensures UuidString(u) == UuidString(v) ==> u == v
  {
    if UuidString(u) == UuidString(v) {
      GroupsOf(Digits(u.mostSigBits / 0x1_0000_0000, 8), Digits(u.mostSigBits / 0x1_0000 % 0x1_0000, 4),
               Digits(u.mostSigBits % 0x1_0000, 4), Digits(u.leastSigBits / 0x1_0000_0000_0000, 4),
               Digits(u.leastSigBits % 0x1_0000_0000_0000, 12));
      GroupsOf(Digits(v.mostSigBits / 0x1_0000_0000, 8), Digits(v.mostSigBits / 0x1_0000 % 0x1_0000, 4),
               Digits(v.mostSigBits % 0x1_0000, 4), Digits(v.leastSigBits / 0x1_0000_0000_0000, 4),
               Digits(v.leastSigBits % 0x1_0000_0000_0000, 12));
      DigitsInjective(u.mostSigBits / 0x1_0000_0000, v.mostSigBits / 0x1_0000_0000, 8);
      DigitsInjective(u.mostSigBits / 0x1_0000 % 0x1_0000, v.mostSigBits / 0x1_0000 % 0x1_0000, 4);
      DigitsInjective(u.mostSigBits % 0x1_0000, v.mostSigBits % 0x1_0000, 4);
      DigitsInjective(u.leastSigBits / 0x1_0000_0000_0000, v.leastSigBits / 0x1_0000_0000_0000, 4);
      DigitsInjective(u.leastSigBits % 0x1_0000_0000_0000, v.leastSigBits % 0x1_0000_0000_0000, 12);
      SplitBits(u.mostSigBits, v.mostSigBits);
      SplitLow(u.leastSigBits, v.leastSigBits);
    }
  }

  /** The five dash-separated groups can be read back from their fixed positions. */
  lemma GroupsOf(a: string, b: string, c: string, d: string, e: string)
    requires |a| == 8 && |b| == 4 && |c| == 4 && |d| == 4 && |e| == 12
    ensures var s := a + "-" + b + "-" + c + "-" + d + "-" + e;
      s[0..8] == a && s[9..13] == b && s[14..18] == c && s[19..23] == d && s[24..36] == e
  {
  }

  lemma SplitBits(a: Bits64, b: Bits64)
    requires a / 0x1_0000_0000 == b / 0x1_0000_0000
    requires a / 0x1_0000 % 0x1_0000 == b / 0x1_0000 % 0x1_0000
    requires a % 0x1_0000 == b % 0x1_0000
    ensures a == b
  {
    assert a / 0x1_0000 / 0x1_0000 == a / 0x1_0000_0000;
    assert b / 0x1_0000 / 0x1_0000 == b / 0x1_0000_0000;
    assert a / 0x1_0000 == b / 0x1_0000;
  }

  lemma SplitLow(a: Bits64, b: Bits64)
    requires a / 0x1_0000_0000_0000 == b / 0x1_0000_0000_0000
    requires a % 0x1_0000_0000_0000 == b % 0x1_0000_0000_0000
    ensures a == b
  {
  }
}

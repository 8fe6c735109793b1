/** The letters and digits of ASCII, written out: what the byte arithmetic elsewhere is measured against. */
module Ascii {
  import opened Bytes

  const UPPER := "ABCDEFGHIJKLMNOPQRSTUVWXYZ"
  const LOWER := "abcdefghijklmnopqrstuvwxyz"
  const DIGITS := "0123456789"
  const HEX := "0123456789ABCDEF"
  const SMALL_HEX := "0123456789abcdef"

  /** The bytes of a text of such characters. */
  function Codes(s: string): Str
    requires forall i | 0 <= i < |s| :: s[i] as int < 128
  {
    seq(|s|, i requires 0 <= i < |s| => s[i] as int)
  }

  /** RFC 3986 section 2.3. */
  const UNRESERVED := UPPER + LOWER + DIGITS + "-._~"

  lemma UpperAt(k: nat)
    requires k < 26
    ensures |UPPER| == 26 && UPPER[k] as int == 0x41 + k
  {
  }

  lemma LowerAt(k: nat)
    requires k < 26
    ensures |LOWER| == 26 && LOWER[k] as int == 0x61 + k
  {
  }

  lemma HexAt(k: nat)
    requires k < 16
    ensures |HEX| == 16 && HEX[k] as int == if k < 10 then 0x30 + k else 0x37 + k
    ensures |SMALL_HEX| == 16 && SMALL_HEX[k] as int == if k < 10 then 0x30 + k else 0x57 + k
  {
  }

  lemma DigitAt(k: nat)
    requires k < 10
    ensures |DIGITS| == 10 && DIGITS[k] as int == 0x30 + k
  {
  }

  lemma AllLetters()
    ensures |UPPER| == 26 && |LOWER| == 26 && |DIGITS| == 10
    ensures forall k | 0 <= k < 26 :: UPPER[k] as int == 0x41 + k && LOWER[k] as int == 0x61 + k
    ensures forall k | 0 <= k < 10 :: DIGITS[k] as int == 0x30 + k
  {
    UpperAt(0);
    LowerAt(0);
    DigitAt(0);
    forall k | 0 <= k < 26 ensures UPPER[k] as int == 0x41 + k && LOWER[k] as int == 0x61 + k {
      UpperAt(k);
      LowerAt(k);
    }
    forall k | 0 <= k < 10 ensures DIGITS[k] as int == 0x30 + k {
      DigitAt(k);
    }
  }

  lemma InRange(s: string, first: Byte, n: nat, b: Byte)
    requires |s| == n && first + n <= 256 && forall k | 0 <= k < n :: s[k] as int == first + k
    ensures (b as char) in s <==> first <= b < first + n
  {
    if first <= b < first + n {
      assert s[b - first] == b as char;
    }
  }

  lemma UnreservedIff(b: Byte)
    ensures (b as char) in UNRESERVED <==>
            || 0x41 <= b <= 0x5A || 0x61 <= b <= 0x7A || 0x30 <= b <= 0x39
            || b == 0x2D || b == 0x5F || b == 0x2E || b == 0x7E
  {
    AllLetters();
    InRange(UPPER, 0x41, 26, b);
    InRange(LOWER, 0x61, 26, b);
    InRange(DIGITS, 0x30, 10, b);
    var marks := "-._~";
    assert (b as char) in marks <==> b == 0x2D || b == 0x5F || b == 0x2E || b == 0x7E;
  }

  /** `b` is `a` with a capital letter of ASCII replaced by the small one, and anything else kept. */
  predicate Lowers(a: Byte, b: Byte) {
    if exists k :: 0 <= k < |UPPER| && UPPER[k] == a as char
    then exists k :: 0 <= k < |UPPER| == |LOWER| && UPPER[k] == a as char && LOWER[k] == b as char
    else a == b
  }

  predicate LowersAll(a: Str, b: Str) {
    |a| == |b| && forall i | 0 <= i < |a| :: Lowers(a[i], b[i])
  }

  /** Equal, or the two cases of one letter. */
  predicate SameLetter(a: Byte, b: Byte) {
    || a == b
    || exists k :: 0 <= k < |UPPER| == |LOWER| &&
         ((UPPER[k] == a as char && LOWER[k] == b as char) || (LOWER[k] == a as char && UPPER[k] == b as char))
  }

  predicate SameButCase(a: Str, b: Str) {
    |a| == |b| && forall i | 0 <= i < |a| :: SameLetter(a[i], b[i])
  }

  lemma LowersIff(a: Byte, b: Byte)
    ensures Lowers(a, b) <==> b == if 0x41 <= a <= 0x5A then a + 0x20 else a
  {
    AllLetters();
    if 0x41 <= a <= 0x5A {
      assert UPPER[a - 0x41] == a as char;
    }
  }

  lemma SameLetterIff(a: Byte, b: Byte)
    ensures SameLetter(a, b) <==>
            a == b || (0x41 <= a <= 0x5A && b == a + 0x20) || (0x61 <= a <= 0x7A && b == a - 0x20)
  {
    AllLetters();
    if 0x41 <= a <= 0x5A && b == a + 0x20 {
      assert UPPER[a - 0x41] == a as char && LOWER[a - 0x41] == b as char;
    }
    if 0x61 <= a <= 0x7A && b == a - 0x20 {
      assert LOWER[a - 0x61] == a as char && UPPER[a - 0x61] == b as char;
    }
  }
}

/**
 * Lowercase base-16 rendering of unsigned big integers, the 64-digit
 * left-padded form `toHex32` produces, and the reader that takes such a
 * string back to its number.
 */
module Hex {
  import opened Wrappers

  /** Width, in hex digits, of one 32-byte calldata word. */
  const WordDigits: nat := 64

  function Pow16(k: nat): nat
  {
    if k == 0 then 1 else 16 * Pow16(k - 1)
  }

  function Pow2(k: nat): nat
  {
    if k == 0 then 1 else 2 * Pow2(k - 1)
  }

  /** 16^k = 2^(4k); in particular 16^64 = 2^256, the bound of a 256-bit word. */
  lemma {:induction false} Pow16IsPow2(k: nat)
    ensures Pow16(k) == Pow2(4 * k)
  {
    if k > 0 {
      Pow16IsPow2(k - 1);
      var e := 4 * (k - 1);
      assert Pow2(e + 4) == 2 * Pow2(e + 3);
      assert Pow2(e + 3) == 2 * Pow2(e + 2);
      assert Pow2(e + 2) == 2 * Pow2(e + 1);
      assert Pow2(e + 1) == 2 * Pow2(e);
    }
  }

  /** The digit characters BigInt.prototype.toString(16) uses. */
  predicate IsHexDigit(c: char)
  {
    ('0' <= c <= '9') || ('a' <= c <= 'f')
  }

  predicate IsHexString(s: string)
  {
    forall i :: 0 <= i < |s| ==> IsHexDigit(s[i])
  }

  function HexDigit(d: nat): (c: char)
    requires d < 16
    ensures IsHexDigit(c)
  {
    if d < 10 then ('0' as int + d) as char else ('a' as int + (d - 10)) as char
  }

  function DigitValue(c: char): (d: nat)
    requires IsHexDigit(c)
    ensures d < 16
  {
    if c <= '9' then (c as int - '0' as int) else (c as int - 'a' as int + 10)
  }

  lemma DigitRoundTrip(d: nat)
    requires d < 16
    ensures DigitValue(HexDigit(d)) == d
  {
  }

  /**
   * `n.toString(16)` for a non-negative BigInt: the shortest lowercase
   * base-16 numeral, "0" for zero, most significant digit first.
   */
  function ToHex(n: nat): (s: string)
    ensures |s| >= 1 && IsHexString(s)
    ensures s[0] == '0' ==> n == 0 && s == "0"
  {
    if n < 16 then [HexDigit(n)] else ToHex(n / 16) + [HexDigit(n % 16)]
  }

  /** A string of k '0' characters. */
  function Zeros(k: nat): (s: string)
    ensures |s| == k
  {
    if k == 0 then [] else "0" + Zeros(k - 1)
  }

  /** Left-pads s with '0' up to `width` characters; never truncates. */
  function PadLeft(s: string, width: nat): string
  {
    if |s| < width then Zeros(width - |s|) + s else s
  }

  /** The specification of `toHex32`: base 16, left-padded to 64 digits. */
  function Hex32(n: nat): string
  {
    PadLeft(ToHex(n), WordDigits)
  }

  /**
   * `toHex32`: render in base 16, then prepend '0' while the string is
   * shorter than 64 characters.
   */
  method ToHex32(num: nat) returns (str: string)
    ensures str == Hex32(num)
  {
    var digits := ToHex(num);
    str := digits;
    while |str| < WordDigits
      invariant |digits| <= |str|
      invariant |str| <= WordDigits || str == digits
      invariant str == Zeros(|str| - |digits|) + digits
      decreases WordDigits - |str|
    {
      str := "0" + str;
    }
  }

  /**
   * Reads a base-16 numeral (most significant digit first); None when
   * some character is not a lowercase hex digit. The empty string reads
   * as zero.
   */
  function FromHex(s: string): (r: Option<nat>)
    ensures r.Some? <==> IsHexString(s)
  {
    if s == [] then Some(0)
    else
      var last := s[|s| - 1];
      match FromHex(s[..|s| - 1])
      case None => None
      case Some(v) => if IsHexDigit(last) then Some(16 * v + DigitValue(last)) else None
  }

  // ---------------------------------------------------------------------
  // Properties of the rendering

  /** |toHex32(n)| = max(64, |n.toString(16)|). */
  lemma Hex32Length(n: nat)
    ensures |Hex32(n)| == if |ToHex(n)| < WordDigits then WordDigits else |ToHex(n)|
  {
  }

  /** toHex32(n) is the unpadded numeral behind zero or more '0's: nothing is cut off. */
  lemma Hex32Shape(n: nat)
    ensures IsHexString(Hex32(n))
    ensures |Hex32(n)| >= |ToHex(n)|
    ensures Hex32(n) == Zeros(|Hex32(n)| - |ToHex(n)|) + ToHex(n)
  {
    if |ToHex(n)| < WordDigits {
      ZerosAreHex(WordDigits - |ToHex(n)|);
    }
  }

  lemma {:induction false} ZerosAreHex(k: nat)
    ensures IsHexString(Zeros(k))
  {
    if k > 0 {
      ZerosAreHex(k - 1);
      assert Zeros(k) == "0" + Zeros(k - 1);
    }
  }

  /** The numeral has at most k digits exactly when n < 16^k. */
  lemma {:induction false} ToHexLength(n: nat, k: nat)
    requires k >= 1
    ensures |ToHex(n)| <= k <==> n < Pow16(k)
  {
    if n < 16 {
      Pow16AtLeast16(k);
    } else if k == 1 {
      assert |ToHex(n)| == |ToHex(n / 16)| + 1;
    } else {
      ToHexLength(n / 16, k - 1);
      assert |ToHex(n)| == |ToHex(n / 16)| + 1;
      assert n == 16 * (n / 16) + n % 16;
      assert Pow16(k) == 16 * Pow16(k - 1);
    }
  }

  lemma {:induction false} Pow16AtLeast16(k: nat)
    requires k >= 1
    ensures Pow16(k) >= 16
  {
    if k > 1 {
      Pow16AtLeast16(k - 1);
    }
  }

  /** toHex32(n) has exactly 64 digits if and only if n < 2^256. */
  lemma Hex32Width(n: nat)
    ensures |Hex32(n)| == WordDigits <==> n < Pow2(256)
  {
    ToHexLength(n, WordDigits);
    Pow16IsPow2(WordDigits);
  }

  // ---------------------------------------------------------------------
  // Reading back

  lemma {:induction false} FromHexToHex(n: nat)
    ensures FromHex(ToHex(n)) == Some(n)
  {
    var s := ToHex(n);
    if n < 16 {
      assert s[..|s| - 1] == [];
      DigitRoundTrip(n);
    } else {
      assert s[..|s| - 1] == ToHex(n / 16);
      FromHexToHex(n / 16);
      DigitRoundTrip(n % 16);
    }
  }

  lemma {:induction false} FromHexZeros(k: nat)
    ensures FromHex(Zeros(k)) == Some(0)
  {
    if k > 0 {
      var z := Zeros(k);
      assert z[..k - 1] == Zeros(k - 1) by {
        ZerosPush(k - 1);
      }
      FromHexZeros(k - 1);
      assert z[k - 1] == '0' by {
        ZerosPush(k - 1);
      }
    }
  }

  lemma {:induction false} ZerosPush(k: nat)
    ensures Zeros(k + 1) == Zeros(k) + "0"
  {
    if k > 0 {
      ZerosPush(k - 1);
      assert Zeros(k + 1) == "0" + Zeros(k) == "0" + (Zeros(k - 1) + "0");
    }
  }

  /** Leading '0' digits do not change the value read. */
  lemma {:induction false} FromHexLeadingZeros(k: nat, s: string)
    ensures FromHex(Zeros(k) + s) == FromHex(s)
    decreases |s|
  {
    var t := Zeros(k) + s;
    if s == [] {
      assert t == Zeros(k);
      FromHexZeros(k);
    } else {
      assert t[..|t| - 1] == Zeros(k) + s[..|s| - 1];
      assert t[|t| - 1] == s[|s| - 1];
      FromHexLeadingZeros(k, s[..|s| - 1]);
    }
  }

  /** Reading toHex32(n) back as base 16 yields n. */
  lemma Hex32RoundTrip(n: nat)
    ensures FromHex(Hex32(n)) == Some(n)
  {
    Hex32Shape(n);
    FromHexLeadingZeros(|Hex32(n)| - |ToHex(n)|, ToHex(n));
    FromHexToHex(n);
  }

  /** Distinct numbers render to distinct words. */
  lemma Hex32Injective(m: nat, n: nat)
    requires Hex32(m) == Hex32(n)
    ensures m == n
  {
    Hex32RoundTrip(m);
    Hex32RoundTrip(n);
  }
}

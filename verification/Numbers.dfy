// Bytes, the byte swap, and decimal numbers (src/util.c:103-144, test/lcclient.py:88-95).
module Numbers {
  import opened Arithmetic
  import opened Common

  type byte = x: int | 0 <= x < 256

  type word = x: int | 0 <= x < U64

  /** A C string without its terminator. */
  type Key = seq<byte>

  // ----- numbers as bytes ---------------------------------------------------------------------

  /** The k low bytes of n, least significant first: a word in memory on a little-endian machine. */
  function LittleEndian(n: nat, k: nat): (s: seq<byte>)
    ensures |s| == k
  {
    if k == 0 then [] else [n % 256] + LittleEndian(n / 256, k - 1)
  }

  /** The number whose bytes, most significant first, are s. */
  function FromBigEndian(s: seq<byte>): nat {
    if s == [] then 0 else FromBigEndian(s[..|s| - 1]) * 256 + s[|s| - 1]
  }

  function Reversed(s: seq<byte>): (r: seq<byte>)
    ensures |r| == |s|
  {
    if s == [] then [] else Reversed(s[1..]) + [s[0]]
  }

  function BigEndian(n: nat, k: nat): (s: seq<byte>)
    ensures |s| == k
  {
    Reversed(LittleEndian(n, k))
  }

  function Pow256(k: nat): (r: nat)
    ensures r > 0
  {
    if k == 0 then 1 else 256 * Pow256(k - 1)
  }

  lemma {:induction false} BigEndianStep(n: nat, k: nat)
    ensures BigEndian(n, k + 1) == BigEndian(n / 256, k) + [n % 256]
  {
  }

  /** Byte i of a word in memory is its i-th from below, in network order the i-th from above. */
  lemma {:induction false} BytesAt(n: nat, k: nat, i: nat)
    requires i < k
    ensures LittleEndian(n, k)[i] == n / Pow256(i) % 256
    ensures BigEndian(n, k)[i] == n / Pow256(k - 1 - i) % 256
  {
    LittleEndianAt(n, k, i);
    LittleEndianAt(n, k, k - 1 - i);
    ReversedAt(LittleEndian(n, k), i);
  }

  lemma {:induction false} LittleEndianAt(n: nat, k: nat, i: nat)
    requires i < k
    ensures LittleEndian(n, k)[i] == n / Pow256(i) % 256
  {
    if i > 0 {
      LittleEndianAt(n / 256, k - 1, i - 1);
      DivDiv(n, 256, Pow256(i - 1));
    }
  }

  lemma {:induction false} ReversedAt(s: seq<byte>, i: nat)
    requires i < |s|
    ensures Reversed(s)[i] == s[|s| - 1 - i]
  {
    if i < |s| - 1 {
      ReversedAt(s[1..], i);
    }
  }

  /** htonl: the four bytes of a length on the wire. */
  lemma NetworkOrder(n: nat)
    requires n < U32
    ensures BigEndian(n, 4) == [n / 0x100_0000, n / 0x1_0000 % 256, n / 0x100 % 256, n % 256]
  {
    assert Pow256(0) == 1 && Pow256(1) == 0x100 && Pow256(2) == 0x1_0000 && Pow256(3) == 0x100_0000;
    forall i: nat | i < 4 ensures BigEndian(n, 4)[i] == n / Pow256(3 - i) % 256 {
      BytesAt(n, 4, i);
    }
  }

  /** Decoding what was encoded gives the number back. */
  lemma {:induction false} BigEndianRoundTrip(n: nat, k: nat)
    requires n < Pow256(k)
    ensures FromBigEndian(BigEndian(n, k)) == n
  {
    if k > 0 {
      BigEndianStep(n, k - 1);
      BigEndianRoundTrip(n / 256, k - 1);
      var s := BigEndian(n, k);
      assert s[..|s| - 1] == BigEndian(n / 256, k - 1);
    }
  }

  lemma {:induction false} FromBigEndianBound(s: seq<byte>)
    ensures FromBigEndian(s) < Pow256(|s|)
  {
    if s != [] {
      FromBigEndianBound(s[..|s| - 1]);
    }
  }

  lemma {:induction false} LittleEndianOfBigEndian(s: seq<byte>)
    ensures LittleEndian(FromBigEndian(s), |s|) == Reversed(s)
  {
    if s != [] {
      var front, last := s[..|s| - 1], s[|s| - 1];
      LittleEndianOfBigEndian(front);
      DivModUnique(FromBigEndian(s), 256, FromBigEndian(front), last);
      ReversedSnoc(front, last);
      assert s == front + [last];
    }
  }

  lemma {:induction false} ReversedSnoc(s: seq<byte>, b: byte)
    ensures Reversed(s + [b]) == [b] + Reversed(s)
  {
    if s == [] {
      assert s + [b] == [b];
    } else {
      ReversedSnoc(s[1..], b);
      assert (s + [b])[1..] == s[1..] + [b];
    }
  }

  // ----- words and their bits -------------------------------------------------------------------

  /** C's bitwise or, bit by bit. */
  function Or(a: nat, b: nat): nat
    decreases a + b
  {
    if a == 0 && b == 0 then 0
    else 2 * Or(a / 2, b / 2) + if a % 2 == 1 || b % 2 == 1 then 1 else 0
  }

  /** C's bitwise and, bit by bit. */
  function And(a: nat, b: nat): nat
    decreases a + b
  {
    if a == 0 || b == 0 then 0
    else 2 * And(a / 2, b / 2) + if a % 2 == 1 && b % 2 == 1 then 1 else 0
  }

  /** The shifts of 64-bit words by eight places. */
  function ShiftLeft8(w: nat): nat {
    (w * 256) % U64
  }

  function ShiftRight8(w: nat): nat {
    w / 256
  }

  lemma {:induction false} OrZero(a: nat)
    ensures Or(a, 0) == a
  {
    if a > 0 {
      OrZero(a / 2);
    }
  }

  /** Or-ing k low bits into a number whose k low bits are clear is adding them. */
  lemma {:induction false} OrIsPlus(a: nat, b: nat, k: nat)
    requires b < Pow2(k)
    ensures Or(a * Pow2(k), b) == a * Pow2(k) + b
  {
    if k == 0 {
      OrZero(a);
    } else {
      var x := a * Pow2(k - 1);
      assert a * Pow2(k) == 2 * x;
      OrIsPlus(a, b / 2, k - 1);
    }
  }

  lemma ModHalves(a: nat, h: nat)
    requires h > 0
    ensures a % (2 * h) == 2 * (a / 2 % h) + a % 2
  {
    DivMod(a / 2, h);
    ModHalvesParts(a, h, a / 2 / h, a / 2 % h, a % 2);
  }

  lemma ModHalvesParts(a: nat, h: nat, q: nat, r: nat, b: nat)
    requires r < h && b < 2 && a == 2 * (q * h + r) + b
    ensures a % (2 * h) == 2 * r + b
  {
    assert 2 * (q * h) == q * (2 * h);
    DivModUnique(a, 2 * h, q, 2 * r + b);
  }

  /** And-ing with k ones keeps the k low bits. */
  lemma {:induction false} AndIsMod(a: nat, k: nat)
    ensures And(a, Pow2(k) - 1) == a % Pow2(k)
  {
    hide And;
    if k > 0 {
      var h := Pow2(k - 1);
      AndIsMod(a / 2, k - 1);
      ModHalves(a, h);
      AndStep(a, h);
    } else {
      AndZero(a);
    }
  }

  lemma AndZero(a: nat)
    ensures And(a, 0) == 0
  {
  }

  lemma AndStep(a: nat, h: nat)
    requires h > 0
    ensures And(a, 2 * h - 1) == 2 * And(a / 2, h - 1) + a % 2
  {
    assert (2 * h - 1) / 2 == h - 1 && (2 * h - 1) % 2 == 1;
  }

  // ----- li_swap64 ----------------------------------------------------------------------------

  /** One round of the loop moves the low byte of `x` to the low end of `rv`. */
  lemma SwapRound(rv: nat, x: nat)
    requires rv * 256 < U64
    ensures Or(ShiftLeft8(rv), And(x, 0xff)) == rv * 256 + x % 256 && ShiftRight8(x) == x / 256
  {
    hide Or, And, Pow2;
    EightBits();
    AndIsMod(x, 8);
    OrIsPlus(rv, x % 256, 8);
  }

  lemma EightBits()
    ensures Pow2(8) == 256
  {
  }

  /** The loop of the little-endian branch, on 64-bit words. The memory image of the result is the
      big-endian form of the argument. */
  method LiSwap64(input: nat) returns (rv: nat)
    requires input < U64
    ensures rv == Swapped(input) < U64
  {
    hide Or, And, ShiftLeft8, ShiftRight8;
    rv := 0;
    var x := input;
    var i := 0;
    while i < 8
      invariant 0 <= i <= 8
      invariant rv == FromBigEndian(LittleEndian(input, i)) < Pow256(i)
      invariant x == input / Pow256(i)
    {
      LittleEndianSnoc(input, i);
      SwapRound(rv, x);
      rv := Or(ShiftLeft8(rv), And(x, 0xff));
      x := ShiftRight8(x);
      i := i + 1;
    }
  }

  lemma {:induction false} LittleEndianGrows(n: nat, i: nat)
    ensures LittleEndian(n, i + 1) == LittleEndian(n, i) + [n / Pow256(i) % 256]
  {
    if i > 0 {
      LittleEndianGrows(n / 256, i - 1);
      DivDiv(n, 256, Pow256(i - 1));
    }
  }

  lemma LittleEndianSnoc(n: nat, i: nat)
    requires i < 8
    ensures n / Pow256(i) / 256 == n / Pow256(i + 1)
    ensures FromBigEndian(LittleEndian(n, i + 1)) == FromBigEndian(LittleEndian(n, i)) * 256 + n / Pow256(i) % 256
    ensures FromBigEndian(LittleEndian(n, i + 1)) < Pow256(i + 1)
    ensures FromBigEndian(LittleEndian(n, i)) * 256 < U64
  {
    LittleEndianGrows(n, i);
    DivDiv(n, Pow256(i), 256);
    var s := LittleEndian(n, i + 1);
    assert s[..|s| - 1] == LittleEndian(n, i);
    FromBigEndianBound(s);
    FromBigEndianBound(LittleEndian(n, i));
    Pow256Small(i);
  }

  lemma Pow256Small(i: nat)
    requires i < 8
    ensures Pow256(i) * 256 <= U64 == Pow256(8)
    decreases 8 - i
  {
    assert Pow256(8) == U64;
    if i < 7 {
      Pow256Small(i + 1);
    }
  }

  function Swapped(n: nat): nat {
    FromBigEndian(LittleEndian(n, 8))
  }

  lemma {:induction false} ReversedTwice(s: seq<byte>)
    ensures Reversed(Reversed(s)) == s
  {
    if s != [] {
      ReversedTwice(s[1..]);
      ReversedSnoc(Reversed(s[1..]), s[0]);
    }
  }

  /** The swap reverses the eight bytes and is its own inverse. */
  lemma SwapReverses(n: nat)
    requires n < U64
    ensures Swapped(n) < U64
    ensures LittleEndian(Swapped(n), 8) == BigEndian(n, 8)
    ensures Swapped(Swapped(n)) == n
  {
    Pow256Small(0);
    FromBigEndianBound(LittleEndian(n, 8));
    LittleEndianOfBigEndian(LittleEndian(n, 8));
    BigEndianRoundTrip(n, 8);
  }

  // ----- atoull -------------------------------------------------------------------------------

  predicate IsDigit(b: byte) {
    48 <= b <= 57
  }

  function DigitOf(b: byte): nat
    requires IsDigit(b)
  {
    (b as int) - 48
  }

  predicate IsSpace(b: byte) {
    b == 32 || 9 <= b <= 13
  }

  function SkipSpace(s: seq<byte>): seq<byte> {
    if s != [] && IsSpace(s[0]) then SkipSpace(s[1..]) else s
  }

  /** The value of the digits s starts with, continuing from acc. */
  function LeadingDigits(s: seq<byte>, acc: nat): nat {
    if s != [] && IsDigit(s[0]) then LeadingDigits(s[1..], acc * 10 + DigitOf(s[0])) else acc
  }

  /** strtoull in base 10 on the bytes of a C string (ISO C99, section 7.20.1.4): white space, an
      optional sign, digits up to the first other byte; None stands for ERANGE. */
  function Strtoull(s: seq<byte>): Option<nat> {
    var t := SkipSpace(s);
    var negative := t != [] && t[0] == 45;
    var u := if t != [] && (t[0] == 45 || t[0] == 43) then t[1..] else t;
    var v := LeadingDigits(u, 0);
    if v >= U64 then None else Some(if negative then (U64 - v) % U64 else v)
  }

  /** atoull: zero stands for an invalid number. */
  function Atoull(s: seq<byte>): (r: Option<nat>)
    ensures r.Some? ==> 0 < r.value < U64
  {
    match Strtoull(s)
    case None => None
    case Some(v) => if v == 0 then None else Some(v)
  }

  /** The number a string of digits denotes. */
  function DigitsValue(s: seq<byte>): nat
    requires forall b | b in s :: IsDigit(b)
  {
    if s == [] then 0 else DigitsValue(s[..|s| - 1]) * 10 + DigitOf(s[|s| - 1])
  }

  lemma {:induction false} LeadingDigitsSnoc(s: seq<byte>, b: byte, rest: seq<byte>, acc: nat)
    requires forall x | x in s :: IsDigit(x)
    requires IsDigit(b) && (rest == [] || !IsDigit(rest[0]))
    ensures LeadingDigits(s + [b] + rest, acc) == LeadingDigits(s + rest, acc) * 10 + DigitOf(b)
  {
    if s == [] {
      assert [b] + rest == [b] + rest && ([b] + rest)[1..] == rest;
      assert s + [b] + rest == [b] + rest && s + rest == rest;
    } else {
      LeadingDigitsSnoc(s[1..], b, rest, acc * 10 + DigitOf(s[0]));
      assert (s + [b] + rest)[1..] == s[1..] + [b] + rest;
      assert (s + rest)[1..] == s[1..] + rest;
    }
  }

  lemma {:induction false} LeadingDigitsValue(s: seq<byte>, rest: seq<byte>)
    requires forall x | x in s :: IsDigit(x)
    requires rest == [] || !IsDigit(rest[0])
    ensures LeadingDigits(s + rest, 0) == DigitsValue(s)
  {
    if s == [] {
      assert s + rest == rest;
    } else {
      var front, last := s[..|s| - 1], s[|s| - 1];
      assert s == front + [last];
      LeadingDigitsValue(front, rest);
      LeadingDigitsSnoc(front, last, rest, 0);
    }
  }

  lemma {:induction false} SkipSpaceAll(ws: seq<byte>, s: seq<byte>)
    requires (forall b | b in ws :: IsSpace(b)) && (s == [] || !IsSpace(s[0]))
    ensures SkipSpace(ws + s) == s
  {
    if ws == [] {
      assert ws + s == s;
    } else {
      assert (ws + s)[1..] == ws[1..] + s && ws[0] in ws;
      SkipSpaceAll(ws[1..], s);
    }
  }

  /** Which numbers atoull reads from a C string: white space, at most one sign and digits, up to the
      first other byte. No digits, zero and more than 64 bits are refused; a minus sign negates
      modulo 2^64. */
  lemma AtoullExactly(ws: seq<byte>, sign: seq<byte>, s: seq<byte>, rest: seq<byte>)
    requires (forall b | b in ws :: b in {9, 10, 11, 12, 13, 32}) && sign in {[], [43], [45]}
    requires (forall b | b in s :: IsDigit(b)) && rest != [] && !(48 <= rest[0] <= 57)
    requires s == [] && sign == [] ==> rest[0] !in {9, 10, 11, 12, 13, 32, 43, 45}
    ensures var v := DigitsValue(s);
            Atoull(ws + (sign + (s + rest))) ==
              if v == 0 || v >= U64 then None else Some(if sign == [45] then U64 - v else v)
  {
    hide DigitsValue, LeadingDigits;
    var t := sign + (s + rest);
    assert (s + rest)[0] == (if s == [] then rest[0] else s[0]) && (s != [] ==> s[0] in s);
    assert t[0] == (if sign == [] then (s + rest)[0] else sign[0]);
    SkipSpaceAll(ws, t);
    assert (if sign == [] then t else t[1..]) == s + rest;
    LeadingDigitsValue(s, rest);
  }

  /** A NUL-terminated string of digits is accepted exactly when it denotes 1 .. 2^64 - 1, and then
      read as that number. */
  lemma AtoullOfDigits(s: seq<byte>)
    requires s != [] && forall x | x in s :: IsDigit(x)
    ensures Atoull(s + [0]) == (if 1 <= DigitsValue(s) < U64 then Some(DigitsValue(s)) else None)
  {
    LeadingDigitsValue(s, [0]);
    var t := s + [0];
    assert t[0] == s[0] && t[0] in s && IsDigit(t[0]);
  }
  /** str(n) of the client: the digits of n denote n. */
  function Decimal(n: nat): (s: seq<byte>)
    ensures s != [] && (forall x | x in s :: IsDigit(x)) && DigitsValue(s) == n
  {
    if n < 10 then [n + 48]
    else
      var s := Decimal(n / 10) + [n % 10 + 48];
      assert s[..|s| - 1] == Decimal(n / 10);
      s
  }
}

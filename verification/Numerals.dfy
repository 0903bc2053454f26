/** Numbers as text: the three-step division by ten, the digit printers of the C library, and the
    readers that invert them. */
module Numerals {
  import opened Basics

  // ---------------------------------------------------------------- division by ten

  /** The processor's 16-bit division by ten. */
  method Div10w(n: nat) returns (q: nat, rem: nat)
    requires n < 0x1_0000
    ensures q == n / 10 && rem == n % 10
  {
    q, rem := n / 10, n % 10;
  }

  /** One byte more of a long division by ten. */
  lemma LongDivision(n: nat, h: nat, b: nat)
    requires n == h * 0x100 + b && b < 0x100
    ensures (h % 10) * 0x100 + b < 2560
    ensures n / 10 == h / 10 * 0x100 + ((h % 10) * 0x100 + b) / 10
    ensures n % 10 == ((h % 10) * 0x100 + b) % 10
    ensures ((h % 10) * 0x100 + b) / 10 < 0x100
  {
  }

  /** __div10: a 32-bit number divided in three 16-bit steps. */
  method Div10(n: nat) returns (q: nat, rem: nat)
    requires n < U32
    ensures q == n / 10 && rem == n % 10
  {
    if n < 65536 {
      q, rem := Div10w(n);
    } else {
      var q1, r1 := Div10w(n / 0x1_0000);
      var d2 := r1 * 0x100 + n % 0x1_0000 / 0x100;
      LongDivision(n / 0x100, n / 0x1_0000, n % 0x1_0000 / 0x100);
      var q2, r2 := Div10w(d2);
      var d3 := r2 * 0x100 + n % 0x100;
      LongDivision(n, n / 0x100, n % 0x100);
      var q3, r3 := Div10w(d3);
      q, rem := q1 * 0x1_0000 + q2 * 0x100 + q3, r3;
    }
  }

  // ---------------------------------------------------------------- decimal

  function Digit(d: nat): char
    requires d < 10
  {
    ('0' as int + d) as char
  }

  predicate IsDigit(c: char) {
    '0' <= c <= '9'
  }

  function Decimal(n: nat): string {
    if n < 10 then [Digit(n)] else Decimal(n / 10) + [Digit(n % 10)]
  }

  /** The number a string of digits denotes. */
  function Value(s: string): nat
    requires forall i :: 0 <= i < |s| ==> IsDigit(s[i])
  {
    if s == "" then 0
    else assert IsDigit(s[|s| - 1]); Value(s[..|s| - 1]) * 10 + (s[|s| - 1] as int - '0' as int)
  }

  /** The decimal text of n: digits, none of them a leading zero, that denote n. */
  lemma {:induction false} DecimalIsNumeral(n: nat)
    ensures Decimal(n) != "" && forall i :: 0 <= i < |Decimal(n)| ==> IsDigit(Decimal(n)[i])
    ensures Value(Decimal(n)) == n
    ensures n > 0 ==> Decimal(n)[0] != '0'
  {
    if n < 10 {
      assert Decimal(n)[..0] == "";
    } else {
      DecimalIsNumeral(n / 10);
      var s := Decimal(n);
      assert s[..|s| - 1] == Decimal(n / 10);
    }
  }

  /** %d: the text of a 32-bit word read as a signed number. */
  function Signed(w: nat): string
    requires w < U32
  {
    if w >= U31 then "-" + Decimal(U32 - w) else Decimal(w)
  }

  function ToInt(w: nat): int
    requires w < U32
  {
    if w >= U31 then w - U32 else w
  }

  /** How many digits s begins with. */
  function DigitCount(s: string): (n: nat)
    ensures n <= |s| && (n < |s| ==> !IsDigit(s[n])) && forall i :: 0 <= i < n ==> IsDigit(s[i])
  {
    if s == "" || !IsDigit(s[0]) then 0 else 1 + DigitCount(s[1..])
  }

  predicate Negative(s: string) {
    s != "" && s[0] == '-'
  }

  /** What atoi makes of a text: the number, 0 if there is a character that is no digit, and None if
      the digits in front of that character overflow a 32-bit signed number. */
  function Read(s: string): Option<int> {
    var t := if Negative(s) then s[1..] else s;
    var n := DigitCount(t);
    var v: int := Value(t[..n]);
    if v >= U31 then None
    else if n < |t| then Some(0)
    else Some(if Negative(s) then -v else v)
  }

  /** More digits denote no smaller a number. */
  lemma {:induction false} ValueGrows(s: string, j: nat)
    requires j <= |s| && forall i :: 0 <= i < |s| ==> IsDigit(s[i])
    ensures Value(s[..j]) <= Value(s)
    decreases |s|
  {
    if j < |s| {
      var front := s[..|s| - 1];
      ValueGrows(front, j);
      assert front[..j] == s[..j];
    } else {
      assert s[..j] == s;
    }
  }

  /** One more digit of a number. */
  lemma NextDigit(t: string, j: nat)
    requires j < |t| && j <= DigitCount(t) && IsDigit(t[j])
    ensures j < DigitCount(t) && Value(t[..j + 1]) == Value(t[..j]) * 10 + (t[j] as int - '0' as int)
    ensures Value(t[..j + 1]) <= Value(t[..DigitCount(t)])
  {
    var n := DigitCount(t);
    assert t[..j + 1][..j] == t[..j];
    assert t[..n][..j + 1] == t[..j + 1];
    ValueGrows(t[..n], j + 1);
  }

  /** atoi. */
  method Atoi(s: string) returns (r: Option<int>)
    ensures r == Read(s)
  {
    var i, val := 0, 0;
    var sign := false;
    if s != "" && s[0] == '-' {
      sign := true;
      i := 1;
    }
    ghost var at := i;
    ghost var t := s[at..];
    assert t == if sign then s[1..] else s;
    while i < |s|
      invariant at <= i <= |s|
      invariant i - at <= DigitCount(t)
      invariant val == Value(t[..i - at]) < U31
    {
      ghost var j: nat := i - at;
      assert s[i] == t[j];
      if s[i] < '0' || s[i] > '9' {
        return Some(0);
      }
      val := val * 10 + (s[i] as int - '0' as int);
      NextDigit(t, j);
      if val >= U31 {
        return None;
      }
      i := i + 1;
    }
    return Some(if sign then -val else val);
  }

  lemma {:induction false} AllDigits(s: string)
    requires forall i :: 0 <= i < |s| ==> IsDigit(s[i])
    ensures DigitCount(s) == |s|
  {
    if s != "" { AllDigits(s[1..]); }
  }

  /** atoi inverts the printing of signed numbers, except for the smallest one. */
  lemma AtoiInvertsIff(w: nat)
    requires w < U32
    ensures Read(Signed(w)) == Some(ToInt(w)) <==> w != U31
  {
    var n := if w >= U31 then U32 - w else w;
    var t := Decimal(n);
    DecimalIsNumeral(n);
    AllDigits(t);
    assert t[..|t|] == t;
    assert IsDigit(t[0]);
    assert ("-" + t)[1..] == t;
  }

  // ---------------------------------------------------------------- hexadecimal

  function HexDigit(d: nat, upper: bool): char
    requires d < 16
  {
    if d >= 10 then ((if upper then 'A' as int else 'a' as int) - 10 + d) as char else ('0' as int + d) as char
  }

  /** The text of x with at least one digit, and at least one more for every pad. */
  function Hex(x: nat, pad: int, upper: bool): string
    decreases x + (if pad > 0 then pad else 0)
  {
    (if x >= 16 || pad > 0 then Hex(x / 16, pad - 1, upper) else "") + [HexDigit(x % 16, upper)]
  }

  /** What readx takes a character for. */
  function Nibble(c: char): Option<nat> {
    if '0' <= c <= '9' then Some(c as int - '0' as int)
    else if 'a' <= c <= 'f' then Some(c as int - 'a' as int + 10)
    else if 'A' <= c <= 'F' then Some(c as int - 'A' as int + 10)
    else None
  }

  /** The 32-bit value of a text, None if a character is no hexadecimal digit. */
  function HexValue(s: string): (r: Option<nat>)
    ensures r.Some? ==> r.value < U32
  {
    if s == "" then Some(0)
    else
      var n := |s| - 1;
      match (HexValue(s[..n]), Nibble(s[n]))
      case (Some(v), Some(d)) => Some((v * 16 + d) % U32)
      case _ => None
  }

  lemma {:induction false} HexPrefix(s: string, j: nat)
    requires j <= |s| && HexValue(s[..j]) == None
    ensures HexValue(s) == None
    decreases |s|
  {
    if j < |s| {
      assert s[..|s| - 1][..j] == s[..j];
      HexPrefix(s[..|s| - 1], j);
    } else {
      assert s[..j] == s;
    }
  }

  /** readx. */
  method Readx(s: string) returns (ok: bool, n: nat)
    ensures HexValue(s) == if ok then Some(n) else None
    ensures !ok ==> n == 0
  {
    n := 0;
    var i := 0;
    while i < |s|
      invariant 0 <= i <= |s| && HexValue(s[..i]) == Some(n)
    {
      var c := s[i];
      assert s[..i + 1][..i] == s[..i];
      if c >= '0' && c <= '9' {
        n := (n * 16 + (c as int - '0' as int)) % U32;
      } else if c >= 'a' && c <= 'f' {
        n := (n * 16 + (c as int - 'a' as int + 10)) % U32;
      } else if c >= 'A' && c <= 'F' {
        n := (n * 16 + (c as int - 'A' as int + 10)) % U32;
      } else {
        HexPrefix(s, i + 1);
        return false, 0;
      }
      i := i + 1;
    }
    assert s[..i] == s;
    ok := true;
  }

  lemma NibbleOfDigit(d: nat, upper: bool)
    requires d < 16
    ensures Nibble(HexDigit(d, upper)) == Some(d)
  {
  }

  /** readx inverts the hexadecimal printer, in either case and at any padding. */
  lemma {:induction false} ReadxInverts(x: nat, pad: int, upper: bool)
    requires x < U32
    ensures HexValue(Hex(x, pad, upper)) == Some(x)
    decreases x + (if pad > 0 then pad else 0)
  {
    var q, r := x / 16, x % 16;
    NibbleOfDigit(r, upper);
    if x >= 16 || pad > 0 {
      ReadxInverts(q, pad - 1, upper);
      HexValueAppend(Hex(q, pad - 1, upper), HexDigit(r, upper), q, r, x);
    } else {
      HexValueAppend("", HexDigit(r, upper), 0, r, x);
      assert "" + [HexDigit(r, upper)] == [HexDigit(r, upper)];
    }
  }

  lemma HexValueAppend(s: string, c: char, v: nat, d: nat, x: nat)
    requires HexValue(s) == Some(v) && Nibble(c) == Some(d) && v * 16 + d == x < U32
    ensures HexValue(s + [c]) == Some(x)
  {
    assert (s + [c])[..|s|] == s;
  }

  function Pow16(k: nat): nat {
    if k == 0 then 1 else 16 * Pow16(k - 1)
  }

  /** The width of the text: as many digits as the number needs, or the padding if that is more. */
  lemma {:induction false} HexWidth(x: nat, pad: int, upper: bool)
    ensures |Hex(x, pad, upper)| >= 1 + pad
    ensures x < Pow16(|Hex(x, pad, upper)|)
    ensures |Hex(x, pad, upper)| > 1 + pad && |Hex(x, pad, upper)| > 1 ==> x >= Pow16(|Hex(x, pad, upper)| - 1)
    decreases x + (if pad > 0 then pad else 0)
  {
    if x >= 16 || pad > 0 {
      HexWidth(x / 16, pad - 1, upper);
      assert |Hex(x, pad, upper)| == |Hex(x / 16, pad - 1, upper)| + 1;
    }
  }
}

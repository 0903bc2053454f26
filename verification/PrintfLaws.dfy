/** What a format means: its parts in turn, each conversion on its own argument, and what each
    conversion prints. */
module PrintfLaws {
  import opened Basics
  import opened Numerals
  import opened Printf

  /** The format does not end inside a conversion; inside tells that it starts in one. */
  predicate Complete(format: string, inside: bool)
    decreases |format|
  {
    if format == "" then !inside else Complete(format[1..], StaysInside(format[0], inside))
  }

  /** Whether the next character belongs to a conversion. */
  predicate StaysInside(c: char, inside: bool) {
    if inside then !Takes(c) && (c == '0' || '2' <= c <= '8') else c == '%'
  }

  /** The number of arguments that a format takes. */
  function Taken(format: string, inside: bool): nat
    decreases |format|
  {
    if format == "" then 0
    else (if inside && Takes(format[0]) then 1 else 0) + Taken(format[1..], StaysInside(format[0], inside))
  }

  /** What one character of a format prints. */
  function Piece(c: char, inside: bool, a: Slot, width: nat): string {
    if !inside then (if c == '%' then "" else [c])
    else if Takes(c) then Converted(c, a, width)
    else if c == '%' then "%"
    else ""
  }

  function WidthAfter(c: char, inside: bool, width: nat): nat {
    if !inside then 0 else if '2' <= c <= '8' then c as int - '0' as int else width
  }

  /** One character, and the rest. */
  lemma RestStep(inside: bool, c: char, more: string, args: Args, k: nat, width: nat)
    ensures Rest(inside, [c] + more, args, k, width) ==
      Piece(c, inside, args(k), width) +
      Rest(StaysInside(c, inside), more, args, if inside && Takes(c) then k + 1 else k, WidthAfter(c, inside, width))
  {
    var f := [c] + more;
    assert f[0] == c && f[1..] == more;
    forall s: string ensures "" + s == s { }
  }

  /** Two formats one behind the other print the first text and then the second, which starts with the
      first argument that the first format did not take. */
  lemma {:induction false} FormatsInTurn(f: string, g: string, args: Args, k: nat, width: nat, inside: bool)
    requires Complete(f, inside)
    ensures Rest(inside, f + g, args, k, width) == Rest(inside, f, args, k, width) + Text(g, args, k + Taken(f, inside))
    decreases |f|
  {
    if f == "" {
      assert f + g == g;
    } else {
      var c, more := f[0], f[1..];
      var k1 := if inside && Takes(c) then k + 1 else k;
      assert f + g == [c] + (more + g) && f == [c] + more;
      RestStep(inside, c, more + g, args, k, width);
      RestStep(inside, c, more, args, k, width);
      FormatsInTurn(more, g, args, k1, WidthAfter(c, inside, width), StaysInside(c, inside));
    }
  }

  /** A conversion without a width, on argument k. */
  lemma OneConversion(c: char, args: Args, k: nat)
    requires Takes(c)
    ensures Complete(['%', c], false) && Taken(['%', c], false) == 1
    ensures Text(['%', c], args, k) == Converted(c, args(k), 0)
  {
    var f, g := ['%', c], [c];
    assert f[1..] == g && g[1..] == "";
    assert Complete("", false) && Taken("", false) == 0;
    assert Complete(g, true) && Taken(g, true) == 1;
    assert Text(f, args, k) == Conversion(g, args, k, 0) == Converted(c, args(k), 0) + "";
    assert Converted(c, args(k), 0) + "" == Converted(c, args(k), 0);
  }

  /** Plain text, a conversion, and more: the second and every later argument goes to the conversions
      behind. */
  lemma ConversionsInTurn(plain: string, c: char, rest: string, args: Args, k: nat)
    requires Takes(c)
    ensures Text(Escape(plain) + (['%', c] + rest), args, k) ==
      plain + (Text(['%', c], args, k) + Text(rest, args, k + 1))
  {
    EscapedPrintsItself(plain, ['%', c] + rest, args, k);
    OneConversion(c, args, k);
    FormatsInTurn(['%', c], rest, args, k, 0, false);
  }

  /** %d and %i print a number that reads back as the argument taken as signed, except for the smallest
      number, which the reader cannot hold. */
  lemma SignedReadsBack(args: Args, k: nat, c: char)
    requires c == 'd' || c == 'i'
    ensures Read(Text(['%', c], args, k)) == Some(ToInt(args(k).word)) <==> args(k).word != U31
  {
    OneConversion(c, args, k);
    AtoiInvertsIff(args(k).word);
  }

  /** %u prints the numeral of the argument. */
  lemma UnsignedIsNumeral(args: Args, k: nat)
    ensures var t := Text("%u", args, k);
      t != "" && (forall i :: 0 <= i < |t| ==> IsDigit(t[i])) && Value(t) == args(k).word
  {
    OneConversion('u', args, k);
    assert "%u" == ['%', 'u'];
    DecimalIsNumeral(args(k).word);
  }

  /** %x, %X and %p print a number that reads back as the argument. */
  lemma HexReadsBack(args: Args, k: nat, c: char)
    requires c == 'x' || c == 'X' || c == 'p'
    ensures HexValue(Text(['%', c], args, k)) == Some(args(k).word)
  {
    HexConversion(args, k, c);
    ReadxInverts(args(k).word, -1, c == 'X');
  }

  lemma HexConversion(args: Args, k: nat, c: char)
    requires c == 'x' || c == 'X' || c == 'p'
    ensures Text(['%', c], args, k) == Hex(args(k).word, -1, c == 'X')
  {
    OneConversion(c, args, k);
  }

  /** Hexadecimal letters are capitals for %X and small otherwise. */
  lemma {:induction false} HexCase(x: nat, pad: int, upper: bool)
    ensures forall d :: d in Hex(x, pad, upper) ==> IsDigit(d) || (if upper then 'A' <= d <= 'F' else 'a' <= d <= 'f')
    decreases x + (if pad > 0 then pad else 0)
  {
    if x >= 16 || pad > 0 { HexCase(x / 16, pad - 1, upper); }
  }

  /** With a field width from 2 to 8 the text has at least that many digits, and more only if the number
      needs them. */
  lemma HexFieldWidth(args: Args, k: nat, d: char, upper: bool)
    requires '2' <= d <= '8'
    ensures
      var t := Text(['%', d, if upper then 'X' else 'x'], args, k);
      && HexValue(t) == Some(args(k).word) && |t| >= d as int - '0' as int
      && (|t| > d as int - '0' as int ==> args(k).word >= Pow16(|t| - 1))
  {
    var c, w: nat := if upper then 'X' else 'x', d as int - '0' as int;
    var f := ['%', d, c];
    assert f[1..] == [d, c] && [d, c][1..] == [c] && [c][1..] == "";
    assert Text(f, args, k) == Conversion([d, c], args, k, 0) == Conversion([c], args, k, w);
    assert Conversion([c], args, k, w) == Hex(args(k).word, w - 1, upper) + "";
    assert Hex(args(k).word, w - 1, upper) + "" == Hex(args(k).word, w - 1, upper);
    ReadxInverts(args(k).word, w - 1, upper);
    HexWidth(args(k).word, w - 1, upper);
  }

  // ---------------------------------------------------------------- texts that are no number

  /** A character that is no digit makes the decimal reader return 0, whatever follows it. */
  lemma ForeignGivesZero(s: string, c: char, rest: string)
    requires (forall i :: 0 <= i < |s| ==> IsDigit(s[i])) && Value(s) < U31
    requires !IsDigit(c) && (s == "" ==> c != '-')
    ensures Read(s + [c] + rest) == Some(0) == Read("-" + (s + [c] + rest))
  {
    var t := s + [c] + rest;
    DigitsBefore(s, c, rest);
    assert !Negative(t) && ("-" + t)[1..] == t;
    assert t[..|s|] == s;
  }

  lemma {:induction false} DigitsBefore(s: string, c: char, rest: string)
    requires (forall i :: 0 <= i < |s| ==> IsDigit(s[i])) && !IsDigit(c)
    ensures DigitCount(s + [c] + rest) == |s|
    decreases |s|
  {
    var t := s + [c] + rest;
    if s != "" {
      assert t[1..] == s[1..] + [c] + rest;
      DigitsBefore(s[1..], c, rest);
    }
  }

  /** The hexadecimal reader fails exactly on a text with a character that is no digit. */
  lemma {:induction false} ForeignFails(s: string)
    ensures HexValue(s) == None <==> exists i :: 0 <= i < |s| && Nibble(s[i]) == None
    decreases |s|
  {
    if s != "" {
      var n := |s| - 1;
      ForeignFails(s[..n]);
      if HexValue(s[..n]) == None {
        var i :| 0 <= i < n && Nibble(s[..n][i]) == None;
        assert Nibble(s[i]) == None;
      } else {
        assert forall i :: 0 <= i < n ==> Nibble(s[..n][i]) != None;
        assert forall i :: 0 <= i < n ==> s[i] == s[..n][i];
      }
    }
  }

  // ---------------------------------------------------------------- strings and characters

  /** %s prints the string, and a mark for a null pointer; %c prints one character. */
  lemma TextPrintsItself(args: Args, k: nat)
    ensures Text("%s", args, k) == if args(k).text.Some? then args(k).text.value else "(null)"
    ensures Text("%c", args, k) == [(args(k).word % 256) as char]
  {
    OneConversion('s', args, k);
    OneConversion('c', args, k);
    assert "%s" == ['%', 's'] && "%c" == ['%', 'c'];
  }
}

/** Formatted output: the chunked printing to a stream and the printing into a buffer both yield the
    text that the format stands for. */
module Printf {
  import opened Basics
  import opened Numerals

  /** One argument, as a 32-bit word and as the string it points to (none for a null pointer). */
  datatype Slot = Slot(word: Word, text: Option<string>)

  type Word = w: nat | w < 0x1_0000_0000

  /** The arguments from first to last, and whatever follows them. */
  type Args = nat -> Slot

  /** The conversions that take an argument. */
  predicate Takes(c: char) {
    c == 's' || c == 'd' || c == 'i' || c == 'u' || c == 'x' || c == 'p' || c == 'X' || c == 'c'
  }

  function Converted(c: char, a: Slot, width: nat): string
    requires Takes(c)
  {
    if c == 's' then (if a.text.Some? then a.text.value else "(null)")
    else if c == 'd' || c == 'i' then Signed(a.word)
    else if c == 'u' then Decimal(a.word)
    else if c == 'c' then [(a.word % 256) as char]
    else Hex(a.word, width - 1, c == 'X')
  }

  /** The text of a format, with the arguments from the k-th on. */
  function Text(format: string, args: Args, k: nat): string
    decreases |format|
  {
    if format == "" then ""
    else if format[0] != '%' then [format[0]] + Text(format[1..], args, k)
    else Conversion(format[1..], args, k, 0)
  }

  /** The text of the rest of a format after a percent sign and a field width. */
  function Conversion(rest: string, args: Args, k: nat, width: nat): string
    decreases |rest|
  {
    if rest == "" then ""
    else
      var c, more := rest[0], rest[1..];
      if Takes(c) then Converted(c, args(k), width) + Text(more, args, k + 1)
      else if c == '%' then "%" + Text(more, args, k)
      else if c == '0' then Conversion(more, args, k, width)
      else if '2' <= c <= '8' then Conversion(more, args, k, c as int - '0' as int)
      else Text(more, args, k)
  }

  /** s with every percent sign doubled. */
  function Escape(s: string): string {
    if s == "" then "" else (if s[0] == '%' then "%%" else [s[0]]) + Escape(s[1..])
  }

  /** An escaped text in front of a format prints as itself and takes no argument. */
  lemma {:induction false} EscapedPrintsItself(s: string, rest: string, args: Args, k: nat)
    ensures Text(Escape(s) + rest, args, k) == s + Text(rest, args, k)
    decreases |s|
  {
    if s == "" {
      assert Escape(s) + rest == rest;
    } else {
      var e := Escape(s[1..]);
      EscapedPrintsItself(s[1..], rest, args, k);
      if s[0] == '%' {
        assert Escape(s) + rest == "%%" + (e + rest);
        assert ("%%" + (e + rest))[1..] == "%" + (e + rest);
        assert ("%" + (e + rest))[1..] == e + rest;
      } else {
        assert (Escape(s) + rest)[1..] == e + rest;
      }
    }
  }

  /** What is still to come, in either mode. */
  function Rest(flag: bool, format: string, args: Args, k: nat, width: nat): string {
    if flag then Conversion(format, args, k, width) else Text(format, args, k)
  }

  // ---------------------------------------------------------------- into a buffer

  /** s goes to str at an index; what is in front of it stays. */
  ghost predicate Wrote(before: seq<char>, after: seq<char>, at: nat, s: string, end: nat) {
    at + |s| == end <= |before| == |after| && after[..end] == before[..at] + s
  }

  method SPutc(str: array<char>, at: nat, c: char) returns (end: nat)
    requires at < str.Length
    modifies str
    ensures Wrote(old(str[..]), str[..], at, [c], end)
  {
    str[at] := c;
    end := at + 1;
  }

  /** __sputs. */
  method SPuts(str: array<char>, at: nat, s: string) returns (end: nat)
    requires at + |s| <= str.Length
    modifies str
    ensures Wrote(old(str[..]), str[..], at, s, end)
  {
    var i := 0;
    while i < |s|
      invariant 0 <= i <= |s|
      invariant str[..at + i] == old(str[..at]) + s[..i]
    {
      str[at + i] := s[i];
      i := i + 1;
    }
    assert s[..i] == s;
    end := at + |s|;
  }

  /** __sprint_u. */
  method SPrintU(str: array<char>, at: nat, d: Word) returns (end: nat)
    requires at + |Decimal(d)| <= str.Length
    modifies str
    ensures Wrote(old(str[..]), str[..], at, Decimal(d), end)
    decreases d
  {
    if d >= 10 {
      var q, rem := Div10(d);
      end := SPrintU(str, at, q);
      end := SPutc(str, end, ('0' as int + rem) as char);
    } else {
      end := SPutc(str, at, ('0' as int + d) as char);
    }
  }

  /** __sprint_x. */
  method SPrintX(str: array<char>, at: nat, x: Word, pad: int, upper: bool) returns (end: nat)
    requires at + |Hex(x, pad, upper)| <= str.Length
    modifies str
    ensures Wrote(old(str[..]), str[..], at, Hex(x, pad, upper), end)
    decreases x + (if pad > 0 then pad else 0)
  {
    end := at;
    if x >= 16 || pad > 0 {
      end := SPrintX(str, at, x / 16, pad - 1, upper);
    }
    end := SPutc(str, end, HexDigit(x % 16, upper));
  }

  /** One conversion of vsprintf. */
  method SConvert(str: array<char>, at: nat, c: char, a: Slot, width: nat) returns (end: nat)
    requires Takes(c) && at + |Converted(c, a, width)| <= str.Length
    modifies str
    ensures Wrote(old(str[..]), str[..], at, Converted(c, a, width), end)
  {
    if c == 's' {
      if a.text.Some? {
        end := SPuts(str, at, a.text.value);
      } else {
        end := SPuts(str, at, "(null)");
      }
    } else if c == 'd' || c == 'i' {
      if a.word >= U31 {
        end := SPutc(str, at, '-');
        end := SPrintU(str, end, U32 - a.word);
      } else {
        end := SPrintU(str, at, a.word);
      }
    } else if c == 'u' {
      end := SPrintU(str, at, a.word);
    } else if c == 'c' {
      end := SPutc(str, at, (a.word % 256) as char);
    } else {
      end := SPrintX(str, at, a.word, width - 1, c == 'X');
    }
  }

  /** vsprintf: the text and a terminating NUL, in a buffer that is large enough. It returns 0. */
  method VSprintf(str: array<char>, format: string, args: Args) returns (r: int)
    requires |Text(format, args, 0)| < str.Length
    modifies str
    ensures r == 0
    ensures var text := Text(format, args, 0); str[..|text|] == text && str[|text|] == '\0'
  {
    ghost var all := Text(format, args, 0);
    var i, k: nat, width: nat, flag, at: nat := 0, 0, 0, false, 0;
    assert format[0..] == format;
    while i < |format|
      invariant 0 <= i <= |format| && at <= str.Length
      invariant str[..at] + Rest(flag, format[i..], args, k, width) == all
      decreases |format| - i
    {
      var c := format[i];
      assert format[i..] == [c] + format[i + 1..];
      if !flag {
        if c == '%' {
          flag, width := true, 0;
        } else {
          at := SPlain(str, at, c, args, k, format[i + 1..], all);
        }
      } else {
        at, k, width, flag := SFlag(str, at, c, args, k, width, format[i + 1..], all);
      }
      i := i + 1;
    }
    assert format[i..] == "";
    assert str[..at] == all;
    str[at] := '\0';
    r := 0;
  }

  /** A plain character. */
  method SPlain(str: array<char>, at0: nat, c: char, args: Args, ghost k: nat, ghost more: string, ghost all: string)
      returns (at: nat)
    requires |all| < str.Length && at0 <= str.Length && c != '%' && str[..at0] + Text([c] + more, args, k) == all
    modifies str
    ensures at <= str.Length && str[..at] + Text(more, args, k) == all
  {
    ghost var had := str[..at0];
    assert ([c] + more)[1..] == more;
    assert had + ([c] + Text(more, args, k)) == (had + [c]) + Text(more, args, k);
    at := SPutc(str, at0, c);
  }

  /** A character after a percent sign. */
  method SFlag(str: array<char>, at0: nat, c: char, args: Args, k0: nat, width0: nat, ghost more: string,
    ghost all: string)
      returns (at: nat, k: nat, width: nat, flag: bool)
    requires |all| < str.Length && at0 <= str.Length && str[..at0] + Conversion([c] + more, args, k0, width0) == all
    modifies str
    ensures at <= str.Length && str[..at] + Rest(flag, more, args, k, width) == all
  {
    at, k, width, flag := at0, k0, width0, false;
    ghost var had := str[..at0];
    assert ([c] + more)[1..] == more;
    if Takes(c) {
      ghost var s := Converted(c, args(k), width);
      assert had + (s + Text(more, args, k + 1)) == (had + s) + Text(more, args, k + 1);
      at := SConvert(str, at, c, args(k), width);
      k := k + 1;
    } else if c == '%' {
      assert had + ("%" + Text(more, args, k)) == (had + "%") + Text(more, args, k);
      at := SPutc(str, at, '%');
    } else if c == '0' {
      flag := true;
    } else if c >= '2' && c <= '8' {
      flag, width := true, c as int - '0' as int;
    }
  }

  // ---------------------------------------------------------------- to a stream

  /** A plain character joins the chunk. */
  lemma Gathered(had: string, format: string, start: nat, i: nat, args: Args, k: nat)
    requires start <= i < |format| && format[i] != '%'
    ensures had + format[start..i] + Text(format[i..], args, k) ==
      had + format[start..i + 1] + Text(format[i + 1..], args, k)
  {
    var c, more := format[i], format[i + 1..];
    assert format[i..][1..] == more;
    assert format[start..i + 1] == format[start..i] + [c];
    assert had + format[start..i] + ([c] + Text(more, args, k)) == had + (format[start..i] + [c]) + Text(more, args, k);
  }

  /** What a stream's file has received. */
  class Stream {
    var out: string

    constructor ()
      ensures out == ""
    {
      out := "";
    }

    method Write(s: string)
      modifies this
      ensures out == old(out) + s
    {
      out := out + s;
    }

    /** __print_u. */
    method PrintU(d: Word)
      modifies this
      ensures out == old(out) + Decimal(d)
      decreases d
    {
      if d >= 10 {
        var q, rem := Div10(d);
        PrintU(q);
        Write([('0' as int + rem) as char]);
      } else {
        Write([('0' as int + d) as char]);
      }
    }

    /** __print_x. */
    method PrintX(x: Word, pad: int, upper: bool)
      modifies this
      ensures out == old(out) + Hex(x, pad, upper)
      decreases x + (if pad > 0 then pad else 0)
    {
      if x >= 16 || pad > 0 {
        PrintX(x / 16, pad - 1, upper);
      }
      Write([HexDigit(x % 16, upper)]);
    }

    /** One conversion of vfprintf. */
    method Convert(c: char, a: Slot, width: nat)
      requires Takes(c)
      modifies this
      ensures out == old(out) + Converted(c, a, width)
    {
      if c == 's' {
        Write(if a.text.Some? then a.text.value else "(null)");
      } else if c == 'd' || c == 'i' {
        if a.word >= U31 {
          Write("-");
          PrintU(U32 - a.word);
        } else {
          PrintU(a.word);
        }
      } else if c == 'u' {
        PrintU(a.word);
      } else if c == 'c' {
        Write([(a.word % 256) as char]);
      } else {
        PrintX(a.word, width - 1, c == 'X');
      }
    }

    /** vfprintf: plain characters are gathered into chunks of the format and written together. It
        returns 0. */
    method VFprintf(format: string, args: Args) returns (r: int)
      modifies this
      ensures r == 0
      ensures out == old(out) + Text(format, args, 0)
    {
      ghost var all := out + Text(format, args, 0);
      var i, k: nat, width: nat, flag := 0, 0, 0, false;
      var start: nat, len: nat := 0, 0;
      assert format[0..] == format;
      while i < |format|
        invariant 0 <= i <= |format| && start + len <= i
        invariant if flag then len == 0 else start + len == i
        invariant out + format[start..start + len] + Rest(flag, format[i..], args, k, width) == all
        decreases |format| - i
      {
        var c := format[i];
        ghost var more := format[i + 1..];
        assert format[i..] == [c] + more;
        if !flag {
          if c == '%' {
            if len > 0 { Write(format[start..start + len]); }
            start, len := i, 0;
            flag, width := true, 0;
            assert ([c] + more)[1..] == more;
          } else {
            Gathered(out, format, start, i, args, k);
            len := len + 1;
          }
        } else {
          k, width, flag := Flag(c, args, k, width, more, all);
          start := i + 1;
        }
        i := i + 1;
      }
      assert format[i..] == "";
      if len > 0 { Write(format[start..start + len]); }
      r := 0;
    }

    /** A character after a percent sign. */
    method Flag(c: char, args: Args, k0: nat, width0: nat, ghost more: string, ghost all: string)
      returns (k: nat, width: nat, flag: bool)
      requires out + Conversion([c] + more, args, k0, width0) == all
      modifies this
      ensures out + Rest(flag, more, args, k, width) == all
    {
      k, width, flag := k0, width0, false;
      ghost var had := out;
      assert ([c] + more)[1..] == more;
      if Takes(c) {
        ghost var s := Converted(c, args(k), width);
        assert had + (s + Text(more, args, k + 1)) == (had + s) + Text(more, args, k + 1);
        Convert(c, args(k), width);
        k := k + 1;
      } else if c == '%' {
        assert had + ("%" + Text(more, args, k)) == (had + "%") + Text(more, args, k);
        Write("%");
      } else if c == '0' {
        flag := true;
      } else if c >= '2' && c <= '8' {
        flag, width := true, c as int - '0' as int;
      }
    }
  }
}

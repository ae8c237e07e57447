/** The bounded formatter: bh_util_stream_* and bh_util_vsnprintf. */
module Format {
  import opened Basics
  import opened Numerals

  /** A variadic argument: its word when an integer or a pointer is read, its text when a string is
      read (none for NULL). */
  datatype Arg = Arg(word: nat, text: Option<string>)

  datatype Flags = Flags(padZero: bool, padLeft: bool, sign: bool)

  /** A conversion directive; `next` is the index behind it. */
  datatype Directive = Directive(flags: Flags, width: int, prec: int, bytelen: nat, conv: char, next: nat)

  // ----- the grammar of directives -----

  predicate IsFlag(c: char) {
    c == '0' || c == '-' || c == ' ' || c == '+'
  }

  function WithFlag(f: Flags, c: char): Flags {
    if c == '0' then f.(padZero := true) else if c == '-' then f.(padLeft := true) else f.(sign := true)
  }

  /** The flags from `i` on, and where they end. */
  function FlagsFrom(s: string, i: nat, f: Flags): (r: (Flags, nat))
    requires i <= |s|
    ensures i <= r.1 <= |s| && !IsFlag(CharAt(s, r.1))
    decreases |s| - i
  {
    if IsFlag(CharAt(s, i)) then FlagsFrom(s, i + 1, WithFlag(f, s[i])) else (f, i)
  }

  /** The conversion of an unsigned to an int. */
  function AsInt(v: nat): int {
    if v % TWO32 < TWO32 / 2 then v % TWO32 else v % TWO32 - TWO32
  }

  /** It wraps around. */
  lemma AsIntWraps(v: nat)
    ensures -0x8000_0000 <= AsInt(v) < 0x8000_0000 && (v - AsInt(v)) % 0x1_0000_0000 == 0
  {
    DivUnique(v - v % TWO32, TWO32, v / TWO32, 0);
    if v % TWO32 >= TWO32 / 2 {
      DivUnique(v - v % TWO32 + TWO32, TWO32, v / TWO32 + 1, 0);
    }
  }

  function WidthAt(s: string, i: nat): (r: (int, nat))
    requires i <= |s|
    ensures i <= r.1 <= |s|
  {
    if IsDigit(CharAt(s, i)) then var (v, j) := ParseFrom(s, i, 0); (AsInt(v), j) else (-1, i)
  }

  function PrecAt(s: string, i: nat): (r: (int, nat))
    requires i <= |s|
    ensures i <= r.1 <= |s|
  {
    if CharAt(s, i) == '.' then var (v, j) := ParseFrom(s, i + 1, 0); (AsInt(v), j) else (-1, i)
  }

  /** The size of a long, a size_t and a pointer. */
  predicate WordSize(wordLen: nat) {
    wordLen == 4 || wordLen == 8
  }

  /** The length modifier: the size of the argument in bytes. `wordLen` is the size of a long. */
  function LengthAt(s: string, i: nat, wordLen: nat): (r: (nat, nat))
    requires i <= |s|
    ensures i <= r.1 <= |s|
  {
    match CharAt(s, i)
    case 'h' => if CharAt(s, i + 1) == 'h' then (1, i + 2) else (2, i + 1)
    case 'l' => if CharAt(s, i + 1) == 'l' then (8, i + 2) else (wordLen, i + 1)
    case 'z' => (wordLen, i + 1)
    case 't' => (wordLen, i + 1)
    case _ => (4, i)
  }

  const NO_FLAGS := Flags(false, false, false)

  /** The directive whose '%' is right before `i`. */
  function DirectiveAt(s: string, i: nat, wordLen: nat): (d: Directive)
    requires i <= |s|
    ensures i < d.next && (d.conv != '\0' ==> d.next <= |s|)
  {
    var (f, j) := FlagsFrom(s, i, NO_FLAGS);
    var (width, j') := WidthAt(s, j);
    var (prec, j'') := PrecAt(s, j');
    var (bytelen, k) := LengthAt(s, j'', wordLen);
    Directive(f, width, prec, bytelen, CharAt(s, k), k + 1)
  }

  // ----- what a directive renders -----

  predicate ArgSize(bytelen: nat) {
    bytelen == 1 || bytelen == 2 || bytelen == 4 || bytelen == 8
  }

  /** How many values fit into so many bytes. */
  function ValuesIn(bytelen: nat): nat
    requires ArgSize(bytelen)
  {
    if bytelen == 1 then 0x100 else if bytelen == 2 then 0x1_0000 else if bytelen == 4 then TWO32 else TWO64
  }

  /** Eight bits to the byte. */
  lemma ValuesArePowers(bytelen: nat)
    requires ArgSize(bytelen)
    ensures ValuesIn(bytelen) == Pow2(8 * bytelen)
  {
    assert Pow2(0) == 1;
    Times256(0);
    hide Pow2;
    Times256(8);
    Times256(16);
    Times256(24);
    Times256(32);
    Times256(40);
    Times256(48);
    Times256(56);
  }

  lemma Times256(n: nat)
    ensures Pow2(n + 8) == 256 * Pow2(n)
  {
    assert Pow2(n + 8) == 4 * Pow2(n + 6) == 16 * Pow2(n + 4) == 64 * Pow2(n + 2) == 256 * Pow2(n);
  }

  /** An integer argument, extended to 64 bits. */
  function Widened(word: nat, bytelen: nat, signed: bool): (v: nat)
    requires ArgSize(bytelen)
    ensures v < TWO64
  {
    var v := word % ValuesIn(bytelen);
    if signed && 2 * v >= ValuesIn(bytelen) then v + TWO64 - ValuesIn(bytelen) else v
  }

  predicate IntConversion(c: char) {
    c == 'd' || c == 'i' || c == 'o' || c == 'u' || c == 'x' || c == 'X'
  }

  predicate SignedConversion(c: char) {
    c == 'd' || c == 'i' || c == 'o'
  }

  /** A C string ends before its first NUL. */
  function UpToNul(s: string): (r: string)
    ensures |r| <= |s| && r == s[..|r|] && (|r| < |s| ==> s[|r|] == '\0')
  {
    if s == [] || s[0] == '\0' then [] else [s[0]] + UpToNul(s[1..])
  }

  /** The text of a directive, or none where the formatter gives up. */
  function TextOf(d: Directive, arg: Arg, wordLen: nat): Option<string>
    requires ArgSize(d.bytelen) && WordSize(wordLen)
  {
    if d.conv == 's' then Some(if arg.text.None? then "(null)" else UpToNul(arg.text.value))
    else if d.conv == 'c' then Some(if arg.word % 256 == 0 then "" else [(arg.word % 256) as char])
    else if d.conv == 'p' then Some("0x" + IntegerText(Widened(arg.word, wordLen, false), 'x'))
    else if IntConversion(d.conv) then
      Some(IntegerText(Widened(arg.word, d.bytelen, SignedConversion(d.conv)), d.conv))
    else if d.conv == '%' then Some("%")
    else None
  }

  function Repeated(c: char, n: int): (s: string)
    ensures |s| == if n < 0 then 0 else n
  {
    if n <= 0 then [] else Repeated(c, n - 1) + [c]
  }

  function Padded(text: string, d: Directive): (s: string)
    ensures |s| == if |text| < d.width then d.width else |text|
  {
    var pad := Repeated(if d.flags.padZero then '0' else ' ', d.width - |text|);
    if d.flags.padLeft then text + pad else pad + text
  }

  /** The unbounded rendering of the format from `i` on, with the arguments from the `k`-th on. */
  function Render(s: string, i: nat, args: nat -> Arg, k: nat, wordLen: nat): string
    requires i <= |s| && WordSize(wordLen)
    decreases |s| - i
  {
    var c := CharAt(s, i);
    if c == '\0' then []
    else if c != '%' then [c] + Render(s, i + 1, args, k, wordLen)
    else
      var d := DirectiveAt(s, i + 1, wordLen);
      if CharAt(s, FlagsFrom(s, i + 1, NO_FLAGS).1) == '\0' then "%"
      else
        var text := TextOf(d, args(k), wordLen);
        if text.None? || d.flags.sign || d.prec != -1 then []
        else Padded(text.value, d) + Render(s, d.next, args, if d.conv == '%' then k else k + 1, wordLen)
  }

  // ----- the stream -----

  /** An output stream over a buffer: counts everything, keeps what fits. */
  class Stream {
    const buffer: array<char>
    var total: nat
    var pos: nat
    var avail: nat
    ghost var sent: string

    /** The buffer holds the first characters that were sent and NUL; nothing is written to a buffer of
        no characters. */
    ghost predicate Valid()
      reads this, buffer
    {
      && total == |sent| && pos + avail == buffer.Length
      && (buffer.Length > 0 ==> pos == Min(|sent|, buffer.Length - 1) && buffer[..pos] == sent[..pos] && buffer[pos] == '\0')
    }

    constructor (buffer: array<char>)
      modifies buffer
      ensures Valid() && sent == "" && this.buffer == buffer
    {
      this.buffer, total, pos, avail, sent := buffer, 0, 0, buffer.Length, "";
      new;
      if avail > 0 {
        buffer[0] := '\0';
      }
    }

    method Send(data: string, len0: int)
      requires Valid() && len0 <= |data|
      modifies this, buffer
      ensures Valid() && sent == old(sent) + if len0 < 0 then data else data[..len0]
    {
      var len := if len0 < 0 then |data| else len0;
      total := total + len;
      sent := sent + data[..len];
      if avail <= 1 {
        return;
      }
      if len >= avail {
        len := avail - 1;
      }
      forall k | pos <= k < pos + len {
        buffer[k] := data[k - pos];
      }
      pos := pos + len;
      buffer[pos] := '\0';
      avail := avail - len;
    }

    method SendRepeat(ch: char, count0: int)
      requires Valid()
      modifies this, buffer
      ensures Valid() && sent == old(sent) + Repeated(ch, count0)
    {
      var pad := [ch, ch, ch, ch, ch, ch, ch, ch];
      var count := count0;
      ghost var done := 0;
      while count > 0
        invariant Valid() && sent == old(sent) + Repeated(ch, done)
        invariant if count0 < 0 then done == 0 && count < 0 else count >= 0 && done + count == count0
      {
        var avail := count;
        if avail > 8 {
          avail := 8;
        }
        RepeatedIs(ch, avail, pad);
        RepeatedAdds(ch, done, avail);
        Send(pad, avail);
        count := count - avail;
        done := done + avail;
      }
    }

    method SendPadded(text: string, d: Directive)
      requires Valid()
      modifies this, buffer
      ensures Valid() && sent == old(sent) + Padded(text, d)
    {
      var slen := |text|;
      var padChar := if d.flags.padZero then '0' else ' ';
      if slen < d.width && !d.flags.padLeft {
        SendRepeat(padChar, d.width - slen);
      }
      Send(text, slen);
      if slen < d.width && d.flags.padLeft {
        SendRepeat(padChar, d.width - slen);
      }
    }

    /** bh_util_stream_vformat. */
    method VFormat(format: string, args: nat -> Arg, wordLen: nat)
      requires Valid() && WordSize(wordLen)
      modifies this, buffer
      ensures Valid() && sent == old(sent) + Render(format, 0, args, 0, wordLen)
    {
      hide Render;
      ghost var goal := sent + Render(format, 0, args, 0, wordLen);
      var nn, k := 0, 0;
      while true
        invariant Valid() && nn <= |format| && Renders(format, nn, args, k, wordLen, sent, goal)
        decreases |format| - nn
      {
        var mm := SkipLiteral(format, nn);
        SentLiteral(format, nn, mm, args, k, wordLen, sent, goal);
        if mm > nn {
          Send(format[nn..mm], mm - nn);
          nn := mm;
        }
        if CharAt(format, nn) == '\0' {
          RenderEnd(format, nn, args, k, wordLen);
          break;
        }
        var done;
        nn, k, done := SendDirective(format, nn, args, k, wordLen, goal);
        if done {
          return;
        }
      }
    }

    /** From a '%' to the end of the directive, unless the formatter gives up there. */
    method SendDirective(format: string, nn0: nat, args: nat -> Arg, k0: nat, wordLen: nat, ghost goal: string)
      returns (nn: nat, k: nat, done: bool)
      requires Valid() && WordSize(wordLen) && nn0 < |format| && format[nn0] == '%'
      requires Renders(format, nn0, args, k0, wordLen, sent, goal)
      modifies this, buffer
      ensures Valid() && if done then sent == goal else nn0 < nn <= |format| && Renders(format, nn, args, k, wordLen, sent, goal)
    {
      hide WidthAt, PrecAt, FlagsFrom, TextOf, Render, Padded;
      nn, k, done := nn0, k0, true;
      var flags, j := ParseFlags(format, nn + 1);
      if CharAt(format, j) == '\0' {
        OnlyFlags(format, nn, args, k, wordLen);
        Send("%", 1);
        return;
      }
      var d := ParseDirective(format, j, flags, wordLen);
      var text := Convert(d, args(k), wordLen);
      RenderDirective(format, nn, args, k, wordLen, sent, goal);
      if text.None? || d.flags.sign || d.prec != -1 {
        return;
      }
      SendPadded(text.value, d);
      nn, done := d.next, false;
      if d.conv != '%' {
        k := k + 1;
      }
    }
  }

  /** With the rendering from `i` on, what has been sent becomes `goal`. */
  ghost predicate Renders(s: string, i: nat, args: nat -> Arg, k: nat, wordLen: nat, sent: string, goal: string)
    requires i <= |s| && WordSize(wordLen)
  {
    sent + Render(s, i, args, k, wordLen) == goal
  }

  lemma SentLiteral(s: string, i: nat, m: nat, args: nat -> Arg, k: nat, wordLen: nat, sent: string, goal: string)
    requires i <= m <= |s| && WordSize(wordLen) && forall j :: i <= j < m ==> s[j] != '\0' && s[j] != '%'
    requires Renders(s, i, args, k, wordLen, sent, goal)
    ensures Renders(s, m, args, k, wordLen, sent + s[i..m], goal)
  {
    RenderLiteral(s, i, m, args, k, wordLen);
    Assoc(sent, s[i..m], Render(s, m, args, k, wordLen));
  }

  lemma RenderEnd(s: string, i: nat, args: nat -> Arg, k: nat, wordLen: nat)
    requires i <= |s| && WordSize(wordLen) && CharAt(s, i) == '\0'
    ensures Render(s, i, args, k, wordLen) == []
  {
  }

  lemma RenderDirective(s: string, i: nat, args: nat -> Arg, k: nat, wordLen: nat, sent: string, goal: string)
    requires i < |s| && WordSize(wordLen) && s[i] == '%' && CharAt(s, FlagsFrom(s, i + 1, NO_FLAGS).1) != '\0'
    requires Renders(s, i, args, k, wordLen, sent, goal)
    ensures var d := DirectiveAt(s, i + 1, wordLen); var text := TextOf(d, args(k), wordLen);
      if text.None? || d.flags.sign || d.prec != -1 then sent == goal
      else d.next <= |s| && Renders(s, d.next, args, if d.conv == '%' then k else k + 1, wordLen, sent + Padded(text.value, d), goal)
  {
    var d := DirectiveAt(s, i + 1, wordLen);
    var text := TextOf(d, args(k), wordLen);
    if text.None? || d.flags.sign || d.prec != -1 {
      assert sent + [] == sent;
    } else {
      Assoc(sent, Padded(text.value, d), Render(s, d.next, args, if d.conv == '%' then k else k + 1, wordLen));
    }
  }

  method SkipLiteral(format: string, nn: nat) returns (mm: nat)
    requires nn <= |format|
    ensures nn <= mm <= |format| && (CharAt(format, mm) == '\0' || CharAt(format, mm) == '%')
    ensures forall i :: nn <= i < mm ==> format[i] != '\0' && format[i] != '%'
  {
    mm := nn;
    while CharAt(format, mm) != '\0' && CharAt(format, mm) != '%'
      invariant nn <= mm <= |format| && forall i :: nn <= i < mm ==> format[i] != '\0' && format[i] != '%'
      decreases |format| - mm
    {
      mm := mm + 1;
    }
  }

  lemma {:induction false} RenderLiteral(s: string, i: nat, m: nat, args: nat -> Arg, k: nat, wordLen: nat)
    requires i <= m <= |s| && WordSize(wordLen) && forall j :: i <= j < m ==> s[j] != '\0' && s[j] != '%'
    ensures Render(s, i, args, k, wordLen) == s[i..m] + Render(s, m, args, k, wordLen)
    decreases m - i
  {
    hide Render;
    if i < m {
      RenderChar(s, i, args, k, wordLen);
      RenderLiteral(s, i + 1, m, args, k, wordLen);
      assert s[i..m] == [s[i]] + s[i + 1..m];
      Assoc([s[i]], s[i + 1..m], Render(s, m, args, k, wordLen));
    } else {
      assert s[i..m] + Render(s, m, args, k, wordLen) == Render(s, m, args, k, wordLen);
    }
  }

  lemma RenderChar(s: string, i: nat, args: nat -> Arg, k: nat, wordLen: nat)
    requires i < |s| && WordSize(wordLen) && s[i] != '\0' && s[i] != '%'
    ensures Render(s, i, args, k, wordLen) == [s[i]] + Render(s, i + 1, args, k, wordLen)
  {
  }

  method ParseFlags(format: string, nn: nat) returns (f: Flags, j: nat)
    requires nn <= |format|
    ensures (f, j) == FlagsFrom(format, nn, NO_FLAGS)
  {
    f, j := NO_FLAGS, nn;
    while true
      invariant j <= |format| && FlagsFrom(format, j, f) == FlagsFrom(format, nn, NO_FLAGS)
      decreases |format| - j
    {
      var c := CharAt(format, j);
      if c == '0' {
        f := f.(padZero := true);
      } else if c == '-' {
        f := f.(padLeft := true);
      } else if c == ' ' || c == '+' {
        f := f.(sign := true);
      } else {
        break;
      }
      j := j + 1;
    }
  }

  /** The rest of a directive, behind its flags. */
  method ParseDirective(format: string, j: nat, flags: Flags, wordLen: nat) returns (d: Directive)
    requires j <= |format| && WordSize(wordLen)
    ensures var (width, j') := WidthAt(format, j); var (prec, j'') := PrecAt(format, j'); var (bytelen, k) := LengthAt(format, j'', wordLen);
      d == Directive(flags, width, prec, bytelen, CharAt(format, k), k + 1)
  {
    hide IsDigit, ParseFrom, AsInt;
    var nn, width, prec, bytelen := j, -1, -1, 4;
    var value;
    if IsDigit(CharAt(format, nn)) {
      value, nn := ParseDecimal(format, nn);
      width := AsInt(value);
    }
    if CharAt(format, nn) == '.' {
      value, nn := ParseDecimal(format, nn + 1);
      prec := AsInt(value);
    }
    match CharAt(format, nn) {
      case 'h' =>
        bytelen, nn := 2, nn + 1;
        if CharAt(format, nn) == 'h' {
          bytelen, nn := 1, nn + 1;
        }
      case 'l' =>
        bytelen, nn := wordLen, nn + 1;
        if CharAt(format, nn) == 'l' {
          bytelen, nn := 8, nn + 1;
        }
      case 'z' => bytelen, nn := wordLen, nn + 1;
      case 't' => bytelen, nn := wordLen, nn + 1;
      case _ =>
    }
    d := Directive(flags, width, prec, bytelen, CharAt(format, nn), nn + 1);
  }

  /** The text of a directive; numbers and characters go through a temporary buffer. */
  method Convert(d: Directive, arg: Arg, wordLen: nat) returns (text: Option<string>)
    requires ArgSize(d.bytelen) && WordSize(wordLen)
    ensures text == TextOf(d, arg, wordLen)
  {
    hide IntegerText, Widened, UpToNul;
    if d.conv == 's' {
      return Some(if arg.text.None? then "(null)" else UpToNul(arg.text.value));
    } else if d.conv == 'c' {
      var s := ConvertChar((arg.word % 256) as char);
      return Some(s);
    } else if d.conv == 'p' {
      var s := ConvertPointer(Widened(arg.word, wordLen, false));
      return Some(s);
    } else if IntConversion(d.conv) {
      var s := ConvertInteger(Widened(arg.word, d.bytelen, SignedConversion(d.conv)), d.conv);
      return Some(s);
    } else if d.conv == '%' {
      var s := ConvertChar('%');
      return Some(s);
    }
    return None;
  }

  method ConvertChar(c: char) returns (s: string)
    ensures s == if c == '\0' then "" else [c]
  {
    var buffer := new char[32];
    buffer[0], buffer[1] := c, '\0';
    var slen := StrLen(buffer, if c == '\0' then 0 else 1);
    s := buffer[..slen];
  }

  method ConvertPointer(value: nat) returns (s: string)
    requires value < TWO64
    ensures s == "0x" + IntegerText(value, 'x')
  {
    var buffer := new char[32];
    buffer[0], buffer[1] := '0', 'x';
    ghost var length := FormatInteger(buffer, 2, 30, value, 'x');
    assert buffer[..2] == "0x";
    assert buffer[..2 + length] == buffer[..2] + buffer[2..2 + length];
    TextNotNul(value, 'x');
    hide IntegerText;
    assert NotNul(buffer[..2 + length]);
    var slen := StrLen(buffer, 2 + length);
    s := buffer[..slen];
  }

  method ConvertInteger(value: nat, conversion: char) returns (s: string)
    requires value < TWO64
    ensures s == IntegerText(value, conversion)
  {
    hide IntegerText;
    var buffer := new char[32];
    ghost var length := FormatInteger(buffer, 0, 32, value, conversion);
    TextNotNul(value, conversion);
    assert buffer[..length] == buffer[0..0 + length];
    assert NotNul(buffer[..length]);
    var slen := StrLen(buffer, length);
    s := buffer[..slen];
  }

  /** strlen. */
  method StrLen(a: array<char>, ghost length: nat) returns (n: nat)
    requires length < a.Length && a[length] == '\0' && NotNul(a[..length])
    ensures n == length
  {
    n := 0;
    while a[n] != '\0'
      invariant n <= length
      decreases length - n
    {
      n := n + 1;
    }
  }

  predicate NotNul(s: string) {
    forall i :: 0 <= i < |s| ==> s[i] != '\0'
  }

  lemma {:induction false} NumeralNotNul(v: nat, base: nat, caps: bool)
    requires Base(base)
    ensures NotNul(Numeral(v, base, caps))
  {
    if v >= base {
      NumeralNotNul(v / base, base, caps);
    }
  }

  lemma TextNotNul(value: nat, conversion: char)
    requires value < TWO64
    ensures NotNul(IntegerText(value, conversion))
  {
    NumeralNotNul(TWO64 - value, 10, false);
    NumeralNotNul(TWO64 - value, 8, false);
    NumeralNotNul(value, 16, conversion == 'X');
    NumeralNotNul(value, 10, conversion == 'X');
    NumeralNotNul(value, 8, conversion == 'X');
  }

  /** bh_util_vsnprintf: the buffer has the first characters of the rendering, as many as fit, and NUL;
      the result is the length of the whole rendering. */
  method Vsnprintf(buffer: array<char>, format: string, args: nat -> Arg, wordLen: nat) returns (total: nat)
    requires WordSize(wordLen)
    modifies buffer
    ensures var r := Render(format, 0, args, 0, wordLen);
      && total == |r|
      && (buffer.Length > 0 ==> var n := Min(|r|, buffer.Length - 1); buffer[..n] == r[..n] && buffer[n] == '\0')
  {
    hide Render;
    var stream := new Stream(buffer);
    stream.VFormat(format, args, wordLen);
    total := stream.total;
  }

  lemma {:induction false} RepeatedAt(ch: char, n: int, i: nat)
    requires i < n
    ensures Repeated(ch, n)[i] == ch
  {
    if i < n - 1 {
      RepeatedAt(ch, n - 1, i);
    }
  }

  lemma RepeatedIs(ch: char, n: nat, pad: string)
    requires n <= |pad| && forall i :: 0 <= i < |pad| ==> pad[i] == ch
    ensures pad[..n] == Repeated(ch, n)
  {
    forall i | 0 <= i < n
      ensures Repeated(ch, n)[i] == ch
    {
      RepeatedAt(ch, n, i);
    }
  }

  lemma {:induction false} RepeatedAdds(ch: char, m: nat, n: nat)
    ensures Repeated(ch, m + n) == Repeated(ch, m) + Repeated(ch, n)
  {
    if n > 0 {
      RepeatedAdds(ch, m, n - 1);
    }
  }

  // ----- what the rendering means -----

  /** Text without directives is rendered as it is. */
  lemma PlainText(s: string, args: nat -> Arg, wordLen: nat)
    requires WordSize(wordLen) && NotNul(s) && '%' !in s
    ensures Render(s, 0, args, 0, wordLen) == s
  {
    assert forall j :: 0 <= j < |s| ==> s[j] in s;
    RenderLiteral(s, 0, |s|, args, 0, wordLen);
    RenderEnd(s, |s|, args, 0, wordLen);
    assert s[0..|s|] + [] == s;
  }

  /** A signed argument of any size keeps its value. */
  lemma WidenedSigned(n: int, bytelen: nat)
    requires ArgSize(bytelen) && -2 * n <= ValuesIn(bytelen) && 2 * n < ValuesIn(bytelen)
    ensures -TWO63 <= n < TWO63 && Widened(Word64(n), bytelen, true) == Word64(n)
  {
    var v := ValuesIn(bytelen);
    assert Word64(n) % v == if n < 0 then n + v else n;
  }

  /** %d and %i, with any length modifier, print the number that was passed. */
  lemma SignedRight(d: Directive, n: int, text: Option<string>, wordLen: nat)
    requires ArgSize(d.bytelen) && WordSize(wordLen) && (d.conv == 'd' || d.conv == 'i')
    requires -2 * n <= ValuesIn(d.bytelen) && 2 * n < ValuesIn(d.bytelen)
    ensures -TWO63 <= n < TWO63
    ensures TextOf(d, Arg(Word64(n), text), wordLen) == Some(if n < 0 then "-" + Unsigned(-n) else Unsigned(n))
  {
    WidenedSigned(n, d.bytelen);
    SignedText(n);
  }

  /** %o prints the octal numeral of its unsigned argument exactly when the top bit is clear; otherwise
      it prints a minus sign. */
  lemma OctalRight(d: Directive, arg: Arg, wordLen: nat)
    requires ArgSize(d.bytelen) && WordSize(wordLen) && d.conv == 'o'
    ensures var v := arg.word % ValuesIn(d.bytelen);
      TextOf(d, arg, wordLen) == Some(Numeral(v, 8, false)) <==> 2 * v < ValuesIn(d.bytelen)
  {
    var v := arg.word % ValuesIn(d.bytelen);
    if 2 * v >= ValuesIn(d.bytelen) {
      NumeralDigits(v, 8, false);
      assert IntegerText(Widened(arg.word, d.bytelen, true), 'o')[0] == '-';
    }
  }

  /** At 0xFFFFFFFF it prints -1, where the standard has 37777777777. */
  lemma OctalFails(d: Directive, text: Option<string>, wordLen: nat)
    requires d.bytelen == 4 && WordSize(wordLen) && d.conv == 'o'
    ensures TextOf(d, Arg(TWO32 - 1, text), wordLen) == Some("-1") && Numeral(TWO32 - 1, 8, false) != "-1"
  {
    assert Numeral(1, 8, false) == "1" && Widened(TWO32 - 1, 4, true) == TWO64 - 1;
    NumeralDigits(TWO32 - 1, 8, false);
    hide Numeral, Widened;
    assert TextOf(d, Arg(TWO32 - 1, text), wordLen) == Some("-" + Numeral(1, 8, false));
    assert "-" + "1" == "-1";
    assert Numeral(TWO32 - 1, 8, false)[0] != "-1"[0];
  }

  /** %u, %x and %X print the argument, cut to its size, in their base. */
  lemma UnsignedRight(d: Directive, arg: Arg, wordLen: nat)
    requires ArgSize(d.bytelen) && WordSize(wordLen) && (d.conv == 'u' || d.conv == 'x' || d.conv == 'X')
    ensures TextOf(d, arg, wordLen).Some?
    ensures ValueOf(TextOf(d, arg, wordLen).value, if d.conv == 'u' then 10 else 16) == arg.word % ValuesIn(d.bytelen)
    ensures TextOf(d, arg, wordLen).value == Numeral(arg.word % ValuesIn(d.bytelen), if d.conv == 'u' then 10 else 16, d.conv == 'X')
  {
    NumeralDenotes(arg.word % ValuesIn(d.bytelen), if d.conv == 'u' then 10 else 16, d.conv == 'X');
  }

  /** %p prints the address in base 16. */
  lemma PointerRight(d: Directive, arg: Arg, wordLen: nat)
    requires ArgSize(d.bytelen) && WordSize(wordLen) && d.conv == 'p'
    ensures TextOf(d, arg, wordLen) == Some("0x" + Numeral(arg.word % ValuesIn(wordLen), 16, false))
    ensures ValueOf(Numeral(arg.word % ValuesIn(wordLen), 16, false), 16) == arg.word % ValuesIn(wordLen)
  {
    NumeralDenotes(arg.word % ValuesIn(wordLen), 16, false);
  }

  // ----- padding -----

  /** How section 7.21.6.1 of ISO/IEC 9899:2011 pads a number: with spaces on the right for '-', which
      overrides '0'; for '0', with zeros behind the sign; else with spaces on the left. */
  function StandardPadded(text: string, d: Directive): string {
    var n := d.width - |text|;
    if d.flags.padLeft then text + Repeated(' ', n)
    else if !d.flags.padZero then Repeated(' ', n) + text
    else if text != [] && text[0] == '-' then "-" + Repeated('0', n) + text[1..]
    else Repeated('0', n) + text
  }

  /** The padding is the standard's exactly if there is nothing to pad, or no '0' flag, or neither a '-'
      flag nor a minus sign beside it. */
  lemma PaddingRight(text: string, d: Directive)
    requires text != []
    ensures Padded(text, d) == StandardPadded(text, d) <==>
            d.width <= |text| || !d.flags.padZero || (!d.flags.padLeft && text[0] != '-')
  {
    var n := d.width - |text|;
    if n <= 0 {
      assert "-" + Repeated('0', n) + text[1..] == "-" + text[1..];
      assert text[0] == '-' ==> "-" + text[1..] == text;
      assert Padded(text, d) == text == StandardPadded(text, d);
    } else {
      RepeatedAt('0', n, 0);
      RepeatedAt(' ', n, 0);
      if d.flags.padZero && d.flags.padLeft {
        assert Padded(text, d)[|text|] == '0' && StandardPadded(text, d)[|text|] == ' ';
      } else if d.flags.padZero && text[0] == '-' {
        assert Padded(text, d)[0] == '0' && StandardPadded(text, d)[0] == '-';
      }
    }
  }

  lemma {:induction false} NumeralDigits(v: nat, base: nat, caps: bool)
    requires Base(base)
    ensures Numeral(v, base, caps)[0] != '-'
  {
    if v >= base {
      NumeralDigits(v / base, base, caps);
    }
  }

  lemma UnsignedDirective(wordLen: nat)
    requires WordSize(wordLen)
    ensures DirectiveAt("%u", 1, wordLen) == Directive(NO_FLAGS, -1, -1, 4, 'u', 2) && FlagsFrom("%u", 1, NO_FLAGS).1 == 1
  {
  }

  /** A format that is a single directive renders to its padded text. */
  lemma SingleDirective(s: string, d: Directive, text: string, args: nat -> Arg, wordLen: nat)
    requires WordSize(wordLen) && s != [] && s[0] == '%' && CharAt(s, FlagsFrom(s, 1, NO_FLAGS).1) != '\0'
    requires d == DirectiveAt(s, 1, wordLen) && TextOf(d, args(0), wordLen) == Some(text)
    requires d.next == |s| && !d.flags.sign && d.prec == -1
    ensures Render(s, 0, args, 0, wordLen) == Padded(text, d)
  {
    hide FlagsFrom, DirectiveAt, TextOf, Padded;
    RenderEnd(s, |s|, args, if d.conv == '%' then 0 else 1, wordLen);
    RenderDirective(s, 0, args, 0, wordLen, [], Render(s, 0, args, 0, wordLen));
    hide Render;
    assert [] + Padded(text, d) + [] == Padded(text, d);
  }

  /** "%-05d" of 42 is rendered with zeros behind it, where the standard has "42   ". */
  lemma PaddingFailsRight(args: nat -> Arg, wordLen: nat)
    requires WordSize(wordLen) && args(0).word == 42
    ensures Render("%-05d", 0, args, 0, wordLen) == "42000" && StandardPadded("42", DirectiveAt("%-05d", 1, wordLen)) == "42   "
  {
    hide Render, FlagsFrom, WidthAt, TextOf, Numeral, Unsigned;
    FortyTwo();
    LeftFlags();
    var d := DirectiveAt("%-05d", 1, wordLen);
    assert d == Directive(Flags(true, true, false), 5, -1, 4, 'd', 5);
    assert Repeated('0', 1) == "0" && Repeated('0', 2) == "00" && Repeated(' ', 1) == " " && Repeated(' ', 2) == "  ";
    SignedRight(d, 42, args(0).text, wordLen);
    SingleDirective("%-05d", d, "42", args, wordLen);
  }

  /** "%05d" of -42 is rendered with zeros in front of the sign, where the standard has "-0042". */
  lemma PaddingFailsSigned(args: nat -> Arg, wordLen: nat)
    requires WordSize(wordLen) && args(0).word == Word64(-42)
    ensures Render("%05d", 0, args, 0, wordLen) == "00-42" && StandardPadded("-42", DirectiveAt("%05d", 1, wordLen)) == "-0042"
  {
    hide Render, FlagsFrom, WidthAt, TextOf, Numeral, Unsigned;
    FortyTwo();
    RightFlags();
    var d := DirectiveAt("%05d", 1, wordLen);
    assert d == Directive(Flags(true, false, false), 5, -1, 4, 'd', 4);
    assert Repeated('0', 1) == "0" && Repeated('0', 2) == "00";
    SignedRight(d, -42, args(0).text, wordLen);
    SingleDirective("%05d", d, "-42", args, wordLen);
  }

  lemma FortyTwo()
    ensures Unsigned(42) == "42" && "-" + "42" == "-42"
  {
    assert Numeral(4, 10, false) == "4";
  }

  lemma LeftFlags()
    ensures FlagsFrom("%-05d", 1, NO_FLAGS) == (Flags(true, true, false), 3) && WidthAt("%-05d", 3) == (5, 4)
  {
    assert FlagsFrom("%-05d", 3, Flags(true, true, false)) == (Flags(true, true, false), 3);
    assert FlagsFrom("%-05d", 2, Flags(false, true, false)) == (Flags(true, true, false), 3);
    assert ParseFrom("%-05d", 4, 5) == (5, 4);
  }

  lemma RightFlags()
    ensures FlagsFrom("%05d", 1, NO_FLAGS) == (Flags(true, false, false), 2) && WidthAt("%05d", 2) == (5, 3)
  {
    assert FlagsFrom("%05d", 2, Flags(true, false, false)) == (Flags(true, false, false), 2);
    assert ParseFrom("%05d", 3, 5) == (5, 3);
  }

  lemma UnsignedRendered(v: nat, args: nat -> Arg, wordLen: nat)
    requires WordSize(wordLen) && v < TWO32 && args(0).word == v
    ensures Render("%u", 0, args, 0, wordLen) == Unsigned(v)
  {
    hide Render, Numeral;
    UnsignedDirective(wordLen);
    var d := DirectiveAt("%u", 1, wordLen);
    SingleDirective("%u", d, Unsigned(v), args, wordLen);
    assert Padded(Unsigned(v), d) == [] + Unsigned(v);
  }

  /** What %u has printed, bh_util_parse_decimal reads back. */
  lemma UnsignedSurvives(v: nat, args: nat -> Arg, wordLen: nat)
    requires WordSize(wordLen) && v < TWO32 && args(0).word == v
    ensures ParseFrom(Render("%u", 0, args, 0, wordLen), 0, 0) == (v, |Unsigned(v)|)
  {
    hide Render, Unsigned, Numeral, ParseFrom;
    UnsignedRendered(v, args, wordLen);
    ParseInvertsFormat([], v, []);
    assert [] + Unsigned(v) + [] == Unsigned(v);
  }

  // ----- strings, characters and what is not supported -----

  /** %s prints its argument up to the first NUL, and NULL as "(null)". */
  lemma StringRight(d: Directive, word: nat, text: string, behind: string, wordLen: nat)
    requires ArgSize(d.bytelen) && WordSize(wordLen) && d.conv == 's' && NotNul(text)
    ensures TextOf(d, Arg(word, Some(text + "\0" + behind)), wordLen) == Some(text)
    ensures TextOf(d, Arg(word, None), wordLen) == Some("(null)")
  {
    NulEnds(text, behind);
  }

  lemma {:induction false} NulEnds(text: string, behind: string)
    requires NotNul(text)
    ensures UpToNul(text + "\0" + behind) == text
  {
    if text == [] {
      assert (text + "\0" + behind)[0] == '\0';
    } else {
      NulEnds(text[1..], behind);
      assert (text + "\0" + behind)[1..] == text[1..] + "\0" + behind;
    }
  }

  /** %c prints the character that is passed as an int, and %% a percent sign. */
  lemma CharacterRight(d: Directive, c: char, n: nat, text: Option<string>, wordLen: nat)
    requires ArgSize(d.bytelen) && WordSize(wordLen) && 0 < c as int < 256
    ensures d.conv == 'c' ==> TextOf(d, Arg(c as int + 256 * n, text), wordLen) == Some([c])
    ensures d.conv == '%' ==> TextOf(d, Arg(n, text), wordLen) == Some("%")
  {
  }

  /** Every other conversion makes the formatter give up; the known ones are these. */
  lemma KnownConversions(d: Directive, arg: Arg, wordLen: nat)
    requires ArgSize(d.bytelen) && WordSize(wordLen)
    ensures TextOf(d, arg, wordLen).Some? <==> d.conv in "scpdiouxX%"
  {
    var known := "scpdiouxX%";
    assert known[0] == 's' && known[1] == 'c' && known[2] == 'p' && known[3] == 'd' && known[4] == 'i';
    assert known[5] == 'o' && known[6] == 'u' && known[7] == 'x' && known[8] == 'X' && known[9] == '%';
  }

  // ----- reading a directive that is spelled out -----

  /** The text of a directive; a width or precision below 0 is left out. */
  function Spelled(flags: string, width: int, prec: int, modifier: string, conv: char): string {
    flags + (if width < 0 then "" else Unsigned(width)) + (if prec < 0 then "" else "." + Unsigned(prec)) + modifier + [conv]
  }

  predicate Spellable(flags: string, width: int, prec: int, modifier: string, conv: char) {
    && (forall i :: 0 <= i < |flags| ==> flags[i] == '0' || flags[i] == '-' || flags[i] == ' ' || flags[i] == '+')
    && -1 <= width < 0x8000_0000 && width != 0 && -1 <= prec < 0x8000_0000
    && (modifier == "" || modifier == "hh" || modifier == "h" || modifier == "l" || modifier == "ll" || modifier == "z" || modifier == "t")
    && conv in "scpdiouxX%"
  }

  /** The formatter reads a directive as it is spelled: whatever stands before and behind it, in any order
      of the flags, and with every width, precision and length modifier. */
  lemma DirectiveSpelled(front: string, flags: string, width: int, prec: int, modifier: string, conv: char, rest: string, wordLen: nat)
    requires WordSize(wordLen) && Spellable(flags, width, prec, modifier, conv)
    ensures var text := Spelled(flags, width, prec, modifier, conv);
      DirectiveAt(front + text + rest, |front|, wordLen) == Directive(
        Flags('0' in flags, '-' in flags, ' ' in flags || '+' in flags), width, prec,
        if modifier == "hh" then 1 else if modifier == "h" then 2 else if modifier == "" then 4 else if modifier == "ll" then 8 else wordLen,
        conv, |front + text|)
  {
    hide FlagsFrom, WidthAt, PrecAt, LengthAt, Unsigned, IsFlag, IsDigit, Spelled;
    ConversionPlain(conv);
    SpelledParts(front, flags, width, prec, modifier, conv, rest);
    var w, p := if width < 0 then "" else Unsigned(width), if prec < 0 then "" else "." + Unsigned(prec);
    var s := front + Spelled(flags, width, prec, modifier, conv) + rest;
    var tail := modifier + [conv] + rest;
    FlagsSpelled(s, front, flags, w + p + tail, width, prec, tail[0]);
    WidthSpelled(s, front + flags, width, p + tail);
    PrecSpelled(s, front + flags + w, prec, tail);
    LengthSpelled(s, front + flags + w + p, modifier, conv, rest, wordLen);
  }

  /** A directive between other text, seen from each of its parts. */
  lemma SpelledParts(front: string, flags: string, width: int, prec: int, modifier: string, conv: char, rest: string)
    requires Spellable(flags, width, prec, modifier, conv)
    ensures var w, p := if width < 0 then "" else Unsigned(width), if prec < 0 then "" else "." + Unsigned(prec);
      var s, tail := front + Spelled(flags, width, prec, modifier, conv) + rest, modifier + [conv] + rest;
      && s == front + flags + (w + p + tail) && s == (front + flags) + w + (p + tail)
      && s == (front + flags + w) + p + tail && s == (front + flags + w + p) + tail
      && |front + Spelled(flags, width, prec, modifier, conv)| == |front| + |flags| + |w| + |p| + |modifier| + 1
      && tail[0] == (if modifier == "" then conv else modifier[0]) && (p + tail)[0] == (if prec >= 0 then '.' else tail[0])
      && (w + p + tail)[0] == (if width >= 0 then Unsigned(width)[0] else if prec >= 0 then '.' else tail[0])
      && !IsDigit(tail[0]) && !IsFlag(tail[0]) && tail[0] != '.' && !IsDigit((p + tail)[0])
      && forall i :: 0 <= i < |flags| ==> IsFlag(flags[i])
  {
    if width >= 0 {
      NumeralFirst(width);
    }
    ModifierPlain(modifier, conv, rest);
    var w, p := if width < 0 then "" else Unsigned(width), if prec < 0 then "" else "." + Unsigned(prec);
    hide Unsigned, IsFlag, IsDigit, Spellable;
    assert p == "" || p[0] == '.';
    Regrouped(front, flags, w, p, modifier, [conv], rest);
    Heads(w, p, modifier + [conv] + rest);
  }

  lemma Heads(w: string, p: string, tail: string)
    requires tail != []
    ensures (p + tail)[0] == (if p == [] then tail[0] else p[0]) && (w + p + tail)[0] == if w != [] then w[0] else if p != [] then p[0] else tail[0]
  {
    HeadOf(p, tail);
    HeadOf(w, p + tail);
    assert w + (p + tail) == w + p + tail;
  }

  /** What stands behind width and precision is neither a digit nor a flag. */
  lemma ModifierPlain(modifier: string, conv: char, rest: string)
    requires modifier == "" || modifier == "hh" || modifier == "h" || modifier == "l" || modifier == "ll" || modifier == "z" || modifier == "t"
    requires conv in "scpdiouxX%"
    ensures var tail := modifier + [conv] + rest;
      tail[0] == (if modifier == "" then conv else modifier[0]) && !IsDigit(tail[0]) && !IsFlag(tail[0]) && tail[0] != '.'
  {
    ConversionPlain(conv);
    HeadOf(modifier, [conv]);
    HeadOf(modifier + [conv], rest + "x");
  }

  lemma HeadOf(a: string, b: string)
    requires b != []
    ensures (a + b)[0] == if a == [] then b[0] else a[0]
  {
  }

  lemma Regrouped(front: string, flags: string, w: string, p: string, modifier: string, conv: string, rest: string)
    ensures var s, tail := front + (flags + w + p + modifier + conv) + rest, modifier + conv + rest;
      && s == front + flags + (w + p + tail) && s == (front + flags) + w + (p + tail)
      && s == (front + flags + w) + p + tail && s == (front + flags + w + p) + tail
      && |front + (flags + w + p + modifier + conv)| == |front| + |flags| + |w| + |p| + |modifier| + |conv|
  {
  }

  /** A format up to the end of its first directive: plain text, and then the padded text of an argument,
      or nothing at all behind it if there is a sign flag or a precision. */
  lemma RenderSpelled(front: string, flags: string, width: int, prec: int, modifier: string, conv: char, rest: string,
                      args: nat -> Arg, k: nat, wordLen: nat)
    requires WordSize(wordLen) && Spellable(flags, width, prec, modifier, conv) && NotNul(front) && '%' !in front
    ensures var begin := front + "%"; var text := Spelled(flags, width, prec, modifier, conv);
      var d, end := DirectiveAt(begin + text + rest, |begin|, wordLen), |begin + text|;
      && TextOf(d, args(k), wordLen).Some?
      && Render(begin + text + rest, 0, args, k, wordLen) == front +
        if ' ' in flags || '+' in flags || prec >= 0 then []
        else Padded(TextOf(d, args(k), wordLen).value, d) + Render(begin + text + rest, end, args, if conv == '%' then k else k + 1, wordLen)
  {
    hide Render, Spelled, TextOf, Padded, Unsigned, FlagsFrom, DirectiveAt;
    var begin, text := front + "%", Spelled(flags, width, prec, modifier, conv);
    var s := begin + text + rest;
    DirectiveSpelled(begin, flags, width, prec, modifier, conv, rest, wordLen);
    var d := DirectiveAt(s, |begin|, wordLen);
    KnownConversions(d, args(k), wordLen);
    assert s[..|front|] == front && s[|front|] == '%';
    assert forall j :: 0 <= j < |front| ==> s[j] == front[j] && s[j] in front;
    RenderLiteral(s, 0, |front|, args, k, wordLen);
    FlagsStop(begin, flags, width, prec, modifier, conv, rest);
    RenderDirective(s, |front|, args, k, wordLen, [], Render(s, |front|, args, k, wordLen));
  }

  /** A percent sign with nothing but flags behind it is printed, without them. */
  lemma RenderPercent(front: string, flags: string, args: nat -> Arg, k: nat, wordLen: nat)
    requires WordSize(wordLen) && NotNul(front) && '%' !in front
    requires forall i :: 0 <= i < |flags| ==> flags[i] == '0' || flags[i] == '-' || flags[i] == ' ' || flags[i] == '+'
    ensures Render(front + "%" + flags, 0, args, k, wordLen) == front + "%"
  {
    hide Render;
    var s := front + "%" + flags;
    assert s[..|front|] == front && s[|front|] == '%';
    assert forall j :: 0 <= j < |front| ==> s[j] == front[j] && s[j] in front;
    RenderLiteral(s, 0, |front|, args, k, wordLen);
    FlagsRead(s, |front| + 1, flags, NO_FLAGS);
    OnlyFlags(s, |front|, args, k, wordLen);
  }

  lemma OnlyFlags(s: string, i: nat, args: nat -> Arg, k: nat, wordLen: nat)
    requires WordSize(wordLen) && i < |s| && s[i] == '%' && CharAt(s, FlagsFrom(s, i + 1, NO_FLAGS).1) == '\0'
    ensures Render(s, i, args, k, wordLen) == "%"
  {
  }

  /** From a conversion that is not known on, nothing is printed. */
  lemma RenderGivesUp(front: string, c: char, rest: string, args: nat -> Arg, k: nat, wordLen: nat)
    requires WordSize(wordLen) && NotNul(front) && '%' !in front
    requires c !in "scpdiouxX%" && !IsFlag(c) && !IsDigit(c) && c != '\0' && c != '.' && c != 'h' && c != 'l' && c != 'z' && c != 't'
    ensures Render(front + "%" + ([c] + rest), 0, args, k, wordLen) == front
  {
    hide Render;
    var s := front + "%" + ([c] + rest);
    assert s[..|front|] == front && s[|front|] == '%' && s[|front| + 1] == c;
    assert forall j :: 0 <= j < |front| ==> s[j] == front[j] && s[j] in front;
    RenderLiteral(s, 0, |front|, args, k, wordLen);
    UnknownConversion(s, |front|, args, k, wordLen);
  }

  lemma UnknownConversion(s: string, i: nat, args: nat -> Arg, k: nat, wordLen: nat)
    requires WordSize(wordLen) && i + 1 < |s| && s[i] == '%' && s[i + 1] !in "scpdiouxX%"
    requires var c := s[i + 1]; !IsFlag(c) && !IsDigit(c) && c != '\0' && c != '.' && c != 'h' && c != 'l' && c != 'z' && c != 't'
    ensures Render(s, i, args, k, wordLen) == []
  {
    assert FlagsFrom(s, i + 1, NO_FLAGS) == (NO_FLAGS, i + 1);
    var d := DirectiveAt(s, i + 1, wordLen);
    assert d == Directive(NO_FLAGS, -1, -1, 4, s[i + 1], i + 2);
    KnownConversions(d, args(k), wordLen);
    hide TextOf;
  }

  /** The flags do not run to the end of the format. */
  lemma FlagsStop(front: string, flags: string, width: int, prec: int, modifier: string, conv: char, rest: string)
    requires Spellable(flags, width, prec, modifier, conv)
    ensures var s := front + Spelled(flags, width, prec, modifier, conv) + rest; CharAt(s, FlagsFrom(s, |front|, NO_FLAGS).1) != '\0'
  {
    hide FlagsFrom, Unsigned, Spelled, IsFlag;
    SpelledParts(front, flags, width, prec, modifier, conv, rest);
    ConversionPlain(conv);
    var w, p := if width < 0 then "" else Unsigned(width), if prec < 0 then "" else "." + Unsigned(prec);
    var s, tail := front + Spelled(flags, width, prec, modifier, conv) + rest, modifier + [conv] + rest;
    FlagsSpelled(s, front, flags, w + p + tail, width, prec, tail[0]);
    if width >= 0 {
      NumeralFirst(width);
    }
    assert s[|front + flags|] == (w + p + tail)[0];
  }

  lemma ConversionPlain(conv: char)
    requires conv in "scpdiouxX%"
    ensures !IsDigit(conv) && !IsFlag(conv) && conv != '\0' && conv != '.' && conv != 'h' && conv != 'l' && conv != 'z' && conv != 't'
  {
    var known := "scpdiouxX%";
    var i :| 0 <= i < |known| && known[i] == conv;
    assert known[0] == 's' && known[1] == 'c' && known[2] == 'p' && known[3] == 'd' && known[4] == 'i';
    assert known[5] == 'o' && known[6] == 'u' && known[7] == 'x' && known[8] == 'X' && known[9] == '%';
  }

  lemma {:induction false} NumeralFirst(v: nat)
    ensures Unsigned(v) != [] && IsDigit(Unsigned(v)[0]) && (v > 0 ==> Unsigned(v)[0] != '0')
  {
    if v >= 10 {
      NumeralFirst(v / 10);
    }
  }

  lemma FlagsSpelled(s: string, front: string, flags: string, behind: string, width: int, prec: int, first: char)
    requires s == front + flags + behind && width != 0 && !IsDigit(first) && !IsFlag(first)
    requires behind != [] && behind[0] == if width >= 0 then Unsigned(width)[0] else if prec >= 0 then '.' else first
    requires forall i :: 0 <= i < |flags| ==> IsFlag(flags[i])
    ensures FlagsFrom(s, |front|, NO_FLAGS) == (Flags('0' in flags, '-' in flags, ' ' in flags || '+' in flags), |front + flags|)
  {
    if width >= 0 {
      NumeralFirst(width);
    }
    hide Unsigned;
    FlagsRead(s, |front|, flags, NO_FLAGS);
    assert s[|front + flags|] == behind[0];
  }

  lemma {:induction false} FlagsRead(s: string, i: nat, flags: string, f: Flags)
    requires i + |flags| <= |s| && s[i..i + |flags|] == flags && !IsFlag(CharAt(s, i + |flags|))
    requires forall k :: 0 <= k < |flags| ==> IsFlag(flags[k])
    ensures FlagsFrom(s, i, f) ==
      (Flags(f.padZero || '0' in flags, f.padLeft || '-' in flags, f.sign || ' ' in flags || '+' in flags), i + |flags|)
    decreases |flags|
  {
    if flags != [] {
      assert s[i] == flags[0];
      FlagsRead(s, i + 1, flags[1..], WithFlag(f, flags[0]));
      assert flags == [flags[0]] + flags[1..];
    }
  }

  lemma WidthSpelled(s: string, front: string, width: int, behind: string)
    requires -1 <= width < 0x8000_0000 && s == front + (if width < 0 then "" else Unsigned(width)) + behind
    requires behind != [] && !IsDigit(behind[0])
    ensures WidthAt(s, |front|) == (width, |front| + if width < 0 then 0 else |Unsigned(width)|)
  {
    if width < 0 {
      assert s == front + behind && s[|front|] == behind[0];
    } else {
      NumeralFirst(width);
      ParseInvertsFormat(front, width, behind);
      assert s[|front|] == Unsigned(width)[0];
    }
  }

  lemma PrecSpelled(s: string, front: string, prec: int, behind: string)
    requires -1 <= prec < 0x8000_0000 && s == front + (if prec < 0 then "" else "." + Unsigned(prec)) + behind
    requires behind != [] && !IsDigit(behind[0]) && behind[0] != '.'
    ensures PrecAt(s, |front|) == (prec, |front| + if prec < 0 then 0 else 1 + |Unsigned(prec)|)
  {
    if prec < 0 {
      assert s == front + behind && s[|front|] == behind[0];
    } else {
      assert s == (front + ".") + Unsigned(prec) + behind;
      ParseInvertsFormat(front + ".", prec, behind);
      assert s[|front|] == '.';
    }
  }

  lemma LengthSpelled(s: string, front: string, modifier: string, conv: char, rest: string, wordLen: nat)
    requires s == front + (modifier + [conv] + rest) && conv != 'h' && conv != 'l' && conv != 'z' && conv != 't'
    requires modifier == "" || modifier == "hh" || modifier == "h" || modifier == "l" || modifier == "ll" || modifier == "z" || modifier == "t"
    ensures var n := |front| + |modifier|;
      n < |s| && s[n] == conv && LengthAt(s, |front|, wordLen) == (
      if modifier == "hh" then 1 else if modifier == "h" then 2 else if modifier == "" then 4 else if modifier == "ll" then 8 else wordLen, n)
  {
    var n := |front| + |modifier|;
    assert s[n] == conv;
    assert forall k :: 0 <= k < |modifier| ==> s[|front| + k] == modifier[k];
  }
}

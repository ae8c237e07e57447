/** Writing numbers into a character buffer, and reading them back: bh_util_format_unsigned,
    bh_util_format_integer and bh_util_parse_decimal. */
module Numerals {
  import opened Basics

  const TWO32 := 0x1_0000_0000
  const TWO63 := 0x8000_0000_0000_0000
  const TWO64 := 0x1_0000_0000_0000_0000

  function DigitChar(d: nat, caps: bool): char
    requires d < 16
  {
    if d < 10 then '0' + d as char else (if caps then 'A' else 'a') + (d - 10) as char
  }

  predicate Base(base: nat) {
    base == 8 || base == 10 || base == 16
  }

  /** The numeral of `v`, most significant digit first. */
  function Numeral(v: nat, base: nat, caps: bool): (s: string)
    requires Base(base)
    ensures s != []
  {
    if v < base then [DigitChar(v, caps)] else Numeral(v / base, base, caps) + [DigitChar(v % base, caps)]
  }

  function DigitValue(c: char): nat {
    if '0' <= c <= '9' then c as nat - '0' as nat
    else if 'a' <= c <= 'f' then c as nat - 'a' as nat + 10
    else if 'A' <= c <= 'F' then c as nat - 'A' as nat + 10
    else 0
  }

  /** The number that a numeral denotes. */
  function ValueOf(s: string, base: nat): nat {
    if s == [] then 0 else ValueOf(s[..|s| - 1], base) * base + DigitValue(s[|s| - 1])
  }

  /** The numeral denotes the number, and has no superfluous zero in front. */
  lemma {:induction false} NumeralDenotes(v: nat, base: nat, caps: bool)
    requires Base(base)
    ensures ValueOf(Numeral(v, base, caps), base) == v
    ensures v > 0 ==> Numeral(v, base, caps)[0] != '0'
  {
    var s := Numeral(v, base, caps);
    assert DigitValue(DigitChar(v % base, caps)) == v % base;
    if v < base {
      assert s[..0] == [];
    } else {
      NumeralDenotes(v / base, base, caps);
      assert s[..|s| - 1] == Numeral(v / base, base, caps);
      assert v / base > 0;
    }
  }

  /** The digits are these characters, in their order. */
  lemma DigitExactly(d: nat, caps: bool)
    requires d < 16
    ensures DigitChar(d, caps) == if caps then "0123456789ABCDEF"[d] else "0123456789abcdef"[d]
  {
  }

  lemma {:induction false} NumeralWritten(v: nat, base: nat, caps: bool)
    requires Base(base)
    ensures forall c :: c in Numeral(v, base, caps) ==> c in if caps then "0123456789ABCDEF" else "0123456789abcdef"
  {
    DigitExactly(v % base, caps);
    if v >= base {
      NumeralWritten(v / base, base, caps);
    }
  }

  /** The digits as they are generated, least significant first; none for zero. */
  function Generated(v: nat, base: nat, caps: bool): string
    requires Base(base)
  {
    if v == 0 then [] else [DigitChar(v % base, caps)] + Generated(v / base, base, caps)
  }

  function Reversed(s: string): (r: string)
    ensures |r| == |s|
  {
    if s == [] then [] else Reversed(s[1..]) + [s[0]]
  }

  lemma {:induction false} ReversedAt(s: string, k: nat)
    requires k < |s|
    ensures Reversed(s)[k] == s[|s| - 1 - k]
  {
    if k < |s| - 1 {
      ReversedAt(s[1..], k);
    }
  }

  lemma {:induction false} NumeralReversed(v: nat, base: nat, caps: bool)
    requires Base(base) && v > 0
    ensures Reversed(Generated(v, base, caps)) == Numeral(v, base, caps)
  {
    if v >= base {
      NumeralReversed(v / base, base, caps);
    } else {
      assert v / base == 0;
      assert Generated(v, base, caps) == [DigitChar(v, caps)];
    }
  }

  /** The last `m` characters, or all. */
  function LastOf(s: string, m: nat): string {
    if |s| <= m then s else s[|s| - m..]
  }

  function FirstOf(s: string, m: nat): string {
    if |s| <= m then s else s[..m]
  }

  lemma ReversedFirst(s: string, m: nat)
    ensures Reversed(FirstOf(s, m)) == LastOf(Reversed(s), m)
  {
    var f := FirstOf(s, m);
    forall k | 0 <= k < |f|
      ensures Reversed(f)[k] == LastOf(Reversed(s), m)[k]
    {
      ReversedAt(f, k);
      ReversedAt(s, |s| - |f| + k);
    }
  }

  lemma DivDown(v: nat, base: nat)
    requires Base(base) && v > 0
    ensures 0 <= v / base < v && 0 <= v % base < base
  {
  }

  /** bh_util_format_unsigned, for the part of `a` that starts at `buf`: the numeral, or as many of its
      last digits as fit, and NUL. With a buffer of one character the reversal loop of the source would
      start from an index that has wrapped around. */
  method FormatUnsigned(a: array<char>, buf: nat, size: nat, value: nat, base: nat, caps: bool) returns (ghost length: nat)
    requires 2 <= size && buf + size <= a.Length && Base(base)
    modifies a
    ensures var s := LastOf(Numeral(value, base, caps), size - 1);
      length == |s| && a[buf..buf + length] == s
    ensures length < size && a[buf + length] == '\0' && a[..buf] == old(a[..buf])
  {
    var p := GenerateDigits(a, buf, size, value, base, caps);
    ghost var digits := FirstOf(Generated(value, base, caps), size - 1);
    if p == buf {
      a[p] := '0';
      p := p + 1;
      digits := "0";
    }
    a[p] := '\0';
    length := p - buf;
    assert a[buf..p] == digits;
    Reverse(a, buf, p);
    if value > 0 {
      NumeralReversed(value, base, caps);
      ReversedFirst(Generated(value, base, caps), size - 1);
    } else {
      assert Reversed("0") == "0";
    }
  }

  method GenerateDigits(a: array<char>, buf: nat, size: nat, value: nat, base: nat, caps: bool) returns (p: nat)
    requires 2 <= size && buf + size <= a.Length && Base(base)
    modifies a
    ensures var s := FirstOf(Generated(value, base, caps), size - 1);
      p == buf + |s| && a[buf..p] == s
    ensures p < buf + size && a[..buf] == old(a[..buf])
  {
    hide Generated, DigitChar, Numeral;
    p := buf;
    var rest: nat := value;
    ghost var done: string := [];
    while rest != 0
      invariant done + Generated(rest, base, caps) == Generated(value, base, caps)
      invariant p == buf + Kept(done, size) && a[buf..p] == done[..p - buf] && a[..buf] == old(a[..buf])
    {
      DivDown(rest, base);
      GeneratedStep(rest, base, caps, done);
      var d := rest % base;
      rest := rest / base;
      if p != buf + size - 1 {
        a[p] := DigitChar(d, caps);
        p := p + 1;
      }
      done := done + [DigitChar(d, caps)];
    }
    GeneratedEnd(base, caps, done);
  }

  /** How many of the digits fit, with NUL, into so many characters. */
  function Kept(s: string, size: nat): nat
    requires size > 0
  {
    if |s| < size then |s| else size - 1
  }

  lemma GeneratedStep(v: nat, base: nat, caps: bool, done: string)
    requires Base(base) && v > 0
    ensures done + Generated(v, base, caps) == (done + [DigitChar(v % base, caps)]) + Generated(v / base, base, caps)
  {
  }

  lemma GeneratedEnd(base: nat, caps: bool, done: string)
    requires Base(base)
    ensures done + Generated(0, base, caps) == done
  {
  }

  /** The digits turned round in place. */
  method Reverse(a: array<char>, from: nat, to: nat)
    requires from < to <= a.Length
    modifies a
    ensures a[from..to] == Reversed(old(a[from..to])) && a[..from] == old(a[..from]) && a[to..] == old(a[to..])
  {
    var i, j := from, to - 1;
    while i < j
      invariant from <= i <= j + 1 && j < to && i - from == to - 1 - j
      invariant forall k :: from <= k < i || j < k < to ==> a[k] == old(a[from + to - 1 - k])
      invariant forall k :: i <= k <= j ==> a[k] == old(a[k])
      invariant a[..from] == old(a[..from]) && a[to..] == old(a[to..])
    {
      a[i], a[j] := a[j], a[i];
      i, j := i + 1, j - 1;
    }
    ghost var was := old(a[from..to]);
    assert forall k :: from <= k < to ==> a[k] == old(a[from + to - 1 - k]);
    forall k | 0 <= k < to - from
      ensures a[from..to][k] == Reversed(was)[k]
    {
      ReversedAt(was, k);
      assert a[from + k] == was[to - from - 1 - k];
    }
  }

  // ----- signed conversions -----

  /** What an integer conversion of a 64-bit value writes; 'o' counts as a signed conversion. */
  function IntegerText(value: nat, conversion: char): string
    requires value < TWO64
  {
    var base := if conversion == 'x' || conversion == 'X' then 16 else if conversion == 'o' then 8 else 10;
    if (conversion == 'd' || conversion == 'i' || conversion == 'o') && value >= TWO63
    then "-" + Numeral(TWO64 - value, base, false)
    else Numeral(value, base, conversion == 'X')
  }

  function Pow8(k: nat): nat {
    if k == 0 then 1 else 8 * Pow8(k - 1)
  }

  lemma {:induction false} Pow8Adds(j: nat, k: nat)
    ensures Pow8(j + k) == Pow8(j) * Pow8(k)
  {
    if j > 0 {
      Pow8Adds(j - 1, k);
    }
  }

  lemma {:induction false} NumeralShort(v: nat, base: nat, caps: bool, k: nat)
    requires Base(base) && 0 < k && v < Pow8(k)
    ensures |Numeral(v, base, caps)| <= k
  {
    if v >= base {
      assert k > 1;
      assert v / base < Pow8(k - 1);
      NumeralShort(v / base, base, caps, k - 1);
    }
  }

  lemma NumeralFits(v: nat, base: nat, caps: bool)
    requires Base(base) && v < TWO64
    ensures |Numeral(v, base, caps)| <= 22
  {
    assert Pow8(11) == 0x2_0000_0000;
    Pow8Adds(11, 11);
    NumeralShort(v, base, caps, 22);
  }

  lemma NumeralWhole(v: nat, base: nat, caps: bool, m: nat)
    requires Base(base) && v < TWO64 && m >= 22
    ensures LastOf(Numeral(v, base, caps), m) == Numeral(v, base, caps) && |Numeral(v, base, caps)| <= 22
  {
    NumeralFits(v, base, caps);
  }

  lemma Glued(a: string, front: string, from: nat, mid: nat, length: nat)
    requires from <= mid && mid + length <= |a| && a[..mid] == front
    ensures a[from..mid + length] == front[from..] + a[mid..mid + length] && a[..from] == front[..from]
  {
  }

  /** bh_util_format_integer: with room for 24 characters nothing is cut off. */
  method FormatInteger(a: array<char>, buf0: nat, size0: nat, value0: nat, conversion: char) returns (ghost length: nat)
    requires 24 <= size0 && buf0 + size0 <= a.Length && value0 < TWO64
    modifies a
    ensures var s := IntegerText(value0, conversion); length == |s| && length < size0 && a[buf0..buf0 + length] == s
    ensures a[buf0 + length] == '\0' && a[..buf0] == old(a[..buf0])
  {
    hide Numeral, LastOf;
    var buf, size, value := buf0, size0, value0;
    var isSigned := conversion == 'd' || conversion == 'i' || conversion == 'o';
    var base := 10;
    if conversion == 'x' || conversion == 'X' {
      base := 16;
    } else if conversion == 'o' {
      base := 8;
    }
    var caps := conversion == 'X';
    if isSigned && value >= TWO63 {
      a[buf] := '-';
      buf, size, value := buf + 1, size - 1, TWO64 - value;
    }
    NumeralWhole(value, base, caps, size - 1);
    ghost var front := a[..buf];
    assert front[..buf0] == old(a[..buf0]) && front[buf0..] == if buf == buf0 then "" else "-";
    length := FormatUnsigned(a, buf, size, value, base, caps);
    Glued(a[..], front, buf0, buf, length);
    length := length + (buf - buf0);
  }

  /** A signed number as a 64-bit word, in two's complement. */
  function Word64(n: int): (w: nat)
    requires -TWO63 <= n < TWO63
    ensures w < TWO64
  {
    if n < 0 then n + TWO64 else n
  }

  /** A signed number is written as its decimal numeral with its sign. */
  lemma SignedText(n: int)
    requires -TWO63 <= n < TWO63
    ensures IntegerText(Word64(n), 'd') == if n < 0 then "-" + Numeral(-n, 10, false) else Numeral(n, 10, false)
  {
  }

  // ----- parsing -----

  /** A C string read at `i`: NUL behind the end. */
  function CharAt(s: string, i: nat): char {
    if i < |s| then s[i] else '\0'
  }

  /** The number read from `i` on, modulo 2 to the 32, and where the digits end. */
  function ParseFrom(s: string, i: nat, acc: nat): (r: (nat, nat))
    requires i <= |s|
    ensures i <= r.1 <= |s| && !IsDigit(CharAt(s, r.1)) && (r.1 == i ==> r.0 == acc)
    decreases |s| - i
  {
    if IsDigit(CharAt(s, i)) then ParseFrom(s, i + 1, (acc * 10 + (s[i] as int - '0' as int)) % TWO32) else (acc, i)
  }

  method ParseDecimal(format: string, pos: nat) returns (result: nat, pos': nat)
    requires pos <= |format|
    ensures (result, pos') == ParseFrom(format, pos, 0)
  {
    result, pos' := 0, pos;
    while true
      invariant pos' <= |format| && ParseFrom(format, pos', result) == ParseFrom(format, pos, 0)
      decreases |format| - pos'
    {
      var ch := CharAt(format, pos');
      if ch < '0' || ch as int - '0' as int >= 10 {
        break;
      }
      result, pos' := (result * 10 + (ch as int - '0' as int)) % TWO32, pos' + 1;
    }
  }

  function Unsigned(v: nat): string {
    Numeral(v, 10, false)
  }

  /** Reading back what was written: the number modulo 2 to the 32, whatever stands around it. */
  lemma {:induction false} ParseNumeral(pre: string, v: nat, post: string, s: string, end: nat)
    requires s == pre + Unsigned(v) + post && end == |pre| + |Unsigned(v)|
    ensures end <= |s| && ParseFrom(s, |pre|, 0) == ParseFrom(s, end, v % TWO32)
    decreases v
  {
    var last := DigitChar(v % 10, false);
    assert s[end - 1] == last && last as int - '0' as int == v % 10;
    if v >= 10 {
      assert s == pre + Unsigned(v / 10) + ([last] + post);
      ParseNumeral(pre, v / 10, [last] + post, s, end - 1);
      ShiftIn(v);
    }
  }

  lemma ShiftIn(v: nat)
    ensures ((v / 10) % TWO32 * 10 + v % 10) % TWO32 == v % TWO32
  {
    var q, r := (v / 10) / TWO32, (v / 10) % TWO32;
    assert v == (q * 10) * TWO32 + (r * 10 + v % 10);
    ModOf(q * 10, r * 10 + v % 10);
  }

  lemma ModOf(q: nat, x: nat)
    ensures (q * TWO32 + x) % TWO32 == x % TWO32
  {
  }

  /** bh_util_parse_decimal inverts bh_util_format_unsigned in base 10 below 2 to the 32. */
  lemma ParseInvertsFormat(pre: string, v: nat, post: string)
    requires v < TWO32 && !IsDigit(CharAt(post, 0))
    ensures ParseFrom(pre + Unsigned(v) + post, |pre|, 0) == (v, |pre| + |Unsigned(v)|)
  {
    hide Unsigned, Numeral, ParseFrom;
    var s, end := pre + Unsigned(v) + post, |pre| + |Unsigned(v)|;
    assert CharAt(s, end) == CharAt(post, 0);
    ParseNumeral(pre, v, post, s, end);
    ParseEnds(s, |pre|, end, v);
  }

  lemma ParseEnds(s: string, start: nat, end: nat, v: nat)
    requires start <= |s| && end <= |s| && v < TWO32 && !IsDigit(CharAt(s, end))
    requires ParseFrom(s, start, 0) == ParseFrom(s, end, v % TWO32)
    ensures ParseFrom(s, start, 0) == (v, end)
  {
    SmallMod(v);
    ParseStops(s, end, v);
  }

  lemma SmallMod(v: nat)
    requires v < TWO32
    ensures v % TWO32 == v
  {
  }

  lemma ParseStops(s: string, i: nat, acc: nat)
    requires i <= |s| && !IsDigit(CharAt(s, i))
    ensures ParseFrom(s, i, acc) == (acc, i)
  {
  }
}

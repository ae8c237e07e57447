/** Signed LEB128 numbers, section 7.6 of DWARF 5, in 64-bit words. The decoders of bytehook and
    xhook are the same code. */
module Sleb128 {
  import opened Basics

  newtype byte = x: int | 0 <= x < 256

  const WORD := 0x1_0000_0000_0000_0000

  /** Seven bits at position `shift`; a shift by 64 or more, which C leaves undefined, drops them. */
  function Part(bits: nat, shift: nat): int {
    if shift < 64 then (bits * Pow2(shift)) % WORD else 0
  }

  datatype Read = Read(value: int, rest: seq<byte>)

  /** Decoding from the first byte, with the lower `shift` bits in `value`. The bits that a step adds
      are all above those, so the additions are the code's bitwise ors. */
  function NextFrom(data: seq<byte>, value: int, shift: nat): (r: Option<Read>)
    ensures r.Some? ==> |r.value.rest| < |data| && r.value.rest == data[|data| - |r.value.rest|..]
  {
    if data == [] then None
    else
      var b := data[0] as int;
      var value' := value + Part(b % 128, shift);
      if b >= 128 then NextFrom(data[1..], value', shift + 7)
      else Some(Read(if shift + 7 < 64 && b >= 64 then value' + (WORD - Pow2(shift + 7)) else value', data[1..]))
  }

  /** The lower bits never collide with those a step adds, and the result is a word. */
  lemma {:induction false} NextIsWord(data: seq<byte>, value: int, shift: nat)
    requires 0 <= value < (if shift < 64 then Pow2(shift) else WORD) && shift % 7 == 0
    ensures var r := NextFrom(data, value, shift); r.Some? ==> 0 <= r.value.value < WORD
    decreases |data|
  {
    hide Part, Pow2;
    if data != [] {
      var b := data[0] as int;
      PartFits(b % 128, shift, value);
      if b >= 128 {
        NextIsWord(data[1..], value + Part(b % 128, shift), shift + 7);
      }
    }
  }

  lemma PartFits(bits: nat, shift: nat, value: int)
    requires bits < 128 && shift % 7 == 0 && 0 <= value < (if shift < 64 then Pow2(shift) else WORD)
    ensures 0 <= value + Part(bits, shift) < if shift + 7 < 64 then Pow2(shift + 7) else WORD
    ensures shift + 7 < 64 ==> Pow2(shift + 7) <= WORD
  {
    hide Pow2;
    if shift <= 56 {
      Pow2Small(shift + 7);
      Pow2Step(shift);
      Pow2Small(shift);
      MulBound(bits, 127, Pow2(shift));
      ModOf(0, bits * Pow2(shift));
    } else if shift == 63 {
      Pow2Small(63);
      TopBit(bits);
    }
  }

  lemma TopBit(bits: nat)
    ensures Part(bits, 63) == if bits % 2 == 0 then 0 else Pow2(63)
  {
    Pow2Small(63);
    assert bits * Pow2(63) == (bits / 2) * WORD + (bits % 2) * Pow2(63);
    ModOf(bits / 2, (bits % 2) * Pow2(63));
  }

  lemma ModOf(q: int, r: int)
    requires 0 <= r < WORD
    ensures (q * WORD + r) % WORD == r
  {
  }

  lemma MulBound(a: nat, b: nat, p: nat)
    requires a <= b
    ensures a * p <= b * p
  {
  }

  lemma Pow2Step(n: nat)
    ensures Pow2(n + 7) == 128 * Pow2(n)
  {
    assert Pow2(n + 7) == 2 * Pow2(n + 6) && Pow2(n + 6) == 2 * Pow2(n + 5) && Pow2(n + 5) == 2 * Pow2(n + 4);
    assert Pow2(n + 4) == 2 * Pow2(n + 3) && Pow2(n + 3) == 2 * Pow2(n + 2) && Pow2(n + 2) == 2 * Pow2(n + 1);
  }

  lemma Pow2Small(n: nat)
    requires n % 7 == 0 && n <= 63
    ensures Pow2(n) == (
      if n == 0 then 1 else if n == 7 then 0x80 else if n == 14 then 0x4000 else if n == 21 then 0x20_0000
      else if n == 28 then 0x1000_0000 else if n == 35 then 0x8_0000_0000 else if n == 42 then 0x400_0000_0000
      else if n == 49 then 0x2_0000_0000_0000 else if n == 56 then 0x100_0000_0000_0000 else 0x8000_0000_0000_0000)
  {
    if n >= 7 {
      Pow2Small(n - 7);
      Pow2Step(n - 7);
    }
  }

  /** The encoding of a signed number: groups of seven bits, lowest first. */
  function Encode(v: int): (s: seq<byte>)
    decreases if v < 0 then -v else v
  {
    var lo, rest := v % 128, v / 128;
    if LastOf(lo, rest) then [lo as byte] else [(lo + 128) as byte] + Encode(rest)
  }

  /** A signed number as a word. */
  function ToWord(v: int): int {
    v % WORD
  }

  lemma Regroup(r: int, lo: int, rest: int, p: int, value: int)
    requires r == 128 * rest + lo
    ensures r * p + value == rest * (128 * p) + (lo * p + value)
  {
  }

  lemma NextByte(data: seq<byte>, value: int, shift: nat)
    ensures data == [] ==> NextFrom(data, value, shift) == None
    ensures data != [] ==>
      var b := data[0] as int; var value' := value + Part(b % 128, shift);
      NextFrom(data, value, shift) ==
        if b >= 128 then NextFrom(data[1..], value', shift + 7)
        else Some(Read(if shift + 7 < 64 && b >= 64 then value' + (WORD - Pow2(shift + 7)) else value', data[1..]))
  {
  }

  predicate LastOf(lo: int, rest: int) {
    (rest == 0 && lo < 64) || (rest == -1 && lo >= 64)
  }

  lemma EncodedBytes(r: int, tail: seq<byte>)
    ensures var s, lo, rest := Encode(r) + tail, r % 128, r / 128;
      s != [] && (if LastOf(lo, rest) then s[0] as int == lo && s[1..] == tail else s[0] as int == lo + 128 && s[1..] == Encode(rest) + tail)
  {
  }

  lemma {:induction false} DecodeStep(v: int, r: int, value: int, shift: nat, tail: seq<byte>)
    requires Long(v) && shift % 7 == 0 && shift <= 63 && 0 <= value < Pow2(shift) && v == r * Pow2(shift) + value
    ensures NextFrom(Encode(r) + tail, value, shift) == Some(Read(ToWord(v), tail))
    decreases 63 - shift
  {
    hide Part, Pow2, NextFrom, Encode, ToWord;
    var lo, rest := r % 128, r / 128;
    EncodedBytes(r, tail);
    NextByte(Encode(r) + tail, value, shift);
    if shift == 63 {
      LastGroup(v, r, value);
    } else {
      GroupValue(v, r, value, shift);
      if !LastOf(lo, rest) {
        DecodeStep(v, rest, value + Part(lo, shift), shift + 7, tail);
      }
    }
  }

  /** The tenth byte holds the sign bit alone. */
  lemma LastGroup(v: int, r: int, value: int)
    requires Long(v) && 0 <= value < Pow2(63) && v == r * Pow2(63) + value
    ensures (r == 0 || r == -1) && value + Part(r % 128, 63) == ToWord(v)
  {
    Pow2Small(63);
    TopBit(r % 128);
    ModOf(if r == 0 then 0 else -1, if r == 0 then v else v + WORD);
  }

  lemma GroupValue(v: int, r: int, value: int, shift: nat)
    requires Long(v) && shift % 7 == 0 && shift <= 56 && 0 <= value < Pow2(shift) && v == r * Pow2(shift) + value
    ensures var lo, rest := r % 128, r / 128; var value' := value + Part(lo, shift);
      && 0 <= value' < Pow2(shift + 7) && v == rest * Pow2(shift + 7) + value'
      && (rest == 0 ==> ToWord(v) == value') && (rest == -1 ==> ToWord(v) == value' + (WORD - Pow2(shift + 7)))
  {
    hide Pow2;
    var p, lo, rest := Pow2(shift), r % 128, r / 128;
    Pow2Small(shift);
    Pow2Small(shift + 7);
    Pow2Step(shift);
    MulBound(lo, 127, p);
    Regroup(r, lo, rest, p, value);
    ModOf(0, lo * p);
    assert Part(lo, shift) == lo * p;
    var value' := value + lo * p;
    if rest == 0 {
      ModOf(0, value');
    } else if rest == -1 {
      ModOf(-1, v + WORD);
    }
  }

  function Next(data: seq<byte>): (r: Option<Read>) {
    NextFrom(data, 0, 0)
  }

  /** Decoding inverts encoding for every 64-bit value, and consumes exactly its bytes. */
  lemma RoundTrip(v: int, tail: seq<byte>)
    requires Long(v)
    ensures Next(Encode(v) + tail) == Some(Read(ToWord(v), tail))
  {
    DecodeStep(v, v, 0, 0, tail);
  }

  /** A number that is complete reads the same whatever follows it. */
  lemma {:induction false} NextMore(data: seq<byte>, value: int, shift: nat, more: seq<byte>)
    requires NextFrom(data, value, shift).Some?
    ensures var r := NextFrom(data, value, shift).value;
      NextFrom(data + more, value, shift) == Some(Read(r.value, r.rest + more))
    decreases |data|
  {
    assert (data + more)[1..] == data[1..] + more;
    var b := data[0] as int;
    if b >= 128 {
      NextMore(data[1..], value + Part(b % 128, shift), shift + 7, more);
    }
  }

  lemma StartsAsWord(data: seq<byte>)
    ensures Next(data).Some? ==> 0 <= Next(data).value.value < WORD
  {
    NextIsWord(data, 0, 0);
  }

  // ----- what a number means -----

  /** The number of a run of bytes, all but the last of which say that another one follows: a numeral in
      base 128, lowest digit first, whose top digit is signed. */
  function Denotes(s: seq<byte>): int
    requires s != []
  {
    if |s| > 1 then s[0] as int - 128 + 128 * Denotes(s[1..]) else if s[0] < 64 then s[0] as int else s[0] as int - 128
  }

  /** The length of the first complete run; 0 if there is none. */
  function RunLength(data: seq<byte>): (n: nat)
    ensures n <= |data| && (forall i :: 0 <= i < n - 1 ==> data[i] >= 128) && (n > 0 ==> data[n - 1] < 128)
    ensures n == 0 ==> forall i :: 0 <= i < |data| ==> data[i] >= 128
  {
    if data == [] then 0 else if data[0] < 128 then 1 else
      var n := RunLength(data[1..]);
      assert forall i :: 0 < i < |data| ==> data[i] == data[1..][i - 1];
      if n == 0 then 0 else n + 1
  }

  /** Whatever the bytes, the decoder takes the first complete run, and the result is the number it
      denotes, as a 64-bit word; there is no result exactly if no run is complete. */
  lemma NextDenotes(data: seq<byte>)
    ensures var n := RunLength(data); Next(data) == if n == 0 then None else Some(Read(Denotes(data[..n]) % WORD, data[n..]))
  {
    hide NextFrom, Denotes, RunLength;
    var n := RunLength(data);
    var q := FromDenotes(data, 0, 0);
    StartsAsWord(data);
    if n > 0 {
      assert Pow2(0) == 1;
      ModOf(-q, Next(data).value.value);
    }
  }

  /** The same from the middle of a run, up to a multiple of the word size. */
  lemma {:induction false} FromDenotes(data: seq<byte>, value: int, shift: nat) returns (q: int)
    requires shift % 7 == 0
    ensures var n, r := RunLength(data), NextFrom(data, value, shift);
      if n == 0 then r == None
      else r.Some? && r.value.rest == data[n..] && r.value.value == value + Denotes(data[..n]) * Pow2(shift) + q * WORD
    decreases |data|
  {
    hide Part, Pow2, NextFrom;
    NextByte(data, value, shift);
    q := 0;
    if data != [] {
      var b, n := data[0] as int, RunLength(data);
      var q0 := PartDenotes(b % 128, shift);
      Pow2Step(shift);
      if b >= 128 {
        var q1 := FromDenotes(data[1..], value + Part(b % 128, shift), shift + 7);
        q := q0 + q1;
        if n > 0 {
          var more := Denotes(data[1..][..n - 1]);
          assert data[..n][1..] == data[1..][..n - 1] && data[n..] == data[1..][n - 1..];
          Digits(b, more, Pow2(shift));
        }
      } else {
        assert data[..n] == [data[0]];
        q := TopDigit(b, shift);
        q := q + q0;
      }
    }
  }

  lemma Digits(b: int, more: int, p: int)
    ensures (b - 128 + 128 * more) * p == (b - 128) * p + more * (128 * p)
  {
  }

  lemma TopDigit(b: int, shift: nat) returns (q: int)
    requires 0 <= b < 128 && shift % 7 == 0
    ensures (if shift + 7 < 64 && b >= 64 then b * Pow2(shift) + (WORD - Pow2(shift + 7)) else b * Pow2(shift))
      == (if b < 64 then b else b - 128) * Pow2(shift) + q * WORD
  {
    hide Pow2;
    Pow2Step(shift);
    q := 0;
    if b >= 64 {
      q := 1;
      if shift + 7 >= 64 {
        q := HighPower(shift + 7);
      }
    }
  }

  lemma {:induction false} HighPower(n: nat) returns (q: int)
    requires n >= 64
    ensures Pow2(n) == q * WORD
  {
    if n == 64 {
      Pow2Small(63);
      q := 1;
    } else {
      q := HighPower(n - 1);
      q := 2 * q;
    }
  }

  lemma PartDenotes(bits: nat, shift: nat) returns (q: int)
    ensures Part(bits, shift) == bits * Pow2(shift) + q * WORD
  {
    hide Pow2;
    if shift < 64 {
      q := -((bits * Pow2(shift)) / WORD);
    } else {
      q := HighPower(shift);
      var p := q;
      q := 0 - bits * p;
      assert bits * (p * WORD) == (bits * p) * WORD;
    }
  }

  /** The examples that section 7.6 of DWARF 5 gives. */
  lemma KnownEncodings()
    ensures Encode(2) == [2] && Encode(-2) == [0x7e] && Encode(127) == [0xff, 0] && Encode(-127) == [0x81, 0x7f]
    ensures Encode(128) == [0x80, 1] && Encode(-128) == [0x80, 0x7f] && Encode(129) == [0x81, 1] && Encode(-129) == [0xff, 0x7e]
  {
    assert Encode(0) == [0] && Encode(1) == [1] && Encode(-1) == [0x7f];
  }

  class Decoder {
    const data: seq<byte>
    var cur: nat

    constructor (data: seq<byte>)
      ensures this.data == data && cur == 0
    {
      this.data, cur := data, 0;
    }

    predicate Valid()
      reads this
    {
      cur <= |data|
    }

    function Left(): seq<byte>
      requires Valid()
      reads this
    {
      data[cur..]
    }

    /** The next number; None at the end of the data. */
    method DecodeNext() returns (r: Option<int>)
      requires Valid()
      modifies this
      ensures Valid() && old(cur) <= cur
      ensures r == None <==> Next(old(Left())) == None
      ensures r.Some? ==> Next(old(Left())) == Some(Read(r.value, Left())) && |Left()| < |old(Left())| && 0 <= r.value < WORD
    {
      hide Part, Pow2, NextFrom;
      var value: int, shift: nat := 0, 0;
      ghost var s := Left();
      StartsAsWord(s);
      while true
        invariant Valid() && old(cur) <= cur
        invariant NextFrom(s, 0, 0) == NextFrom(Left(), value, shift)
        decreases |data| - cur
      {
        NextByte(Left(), value, shift);
        if cur >= |data| {
          return None;
        }
        var b := data[cur];
        assert Left()[1..] == data[cur + 1..];
        cur := cur + 1;
        value := value + Part(b as int % 128, shift);
        shift := shift + 7;
        if b < 128 {
          if shift < 64 && b >= 64 {
            value := value + (WORD - Pow2(shift));
          }
          return Some(value);
        }
      }
    }
  }
}

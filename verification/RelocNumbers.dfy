/** The packed relocation format in terms of the numbers of a stream: which of them is what, by the bits
    of the group flags. The reference here picks every field by its place and shares nothing with the
    decoders. */
module RelocNumbers {
  import opened Basics
  import opened Sleb128
  import opened PackedRelocs

  /** The numbers of the data, one after the other. */
  function Numbers(data: seq<byte>): seq<int>
    decreases |data|
  {
    match Next(data)
    case None => []
    case Some(r) => [r.value] + Numbers(r.rest)
  }

  // ----- the reference -----

  /** Flag 1: the group has one info. */
  predicate OneInfo(flags: int) { flags % 2 == 1 }

  /** Flag 2: the group has one distance from each offset to the next. */
  predicate OneDelta(flags: int) { flags / 2 % 2 == 1 }

  /** Flags 8 and 4: there are addends, and the group has one for all. */
  predicate OneAddend(flags: int) { flags / 8 % 2 == 1 && flags / 4 % 2 == 1 }

  /** Flag 8 without 4: there are addends, one for each relocation. */
  predicate Addends(flags: int) { flags / 8 % 2 == 1 && flags / 4 % 2 == 0 }

  function One(b: bool): nat { if b then 1 else 0 }

  /** How many numbers a group has in front, and how many each relocation has. */
  function Front(flags: int): nat { 2 + One(OneDelta(flags)) + One(OneInfo(flags)) + One(OneAddend(flags)) }

  function Each(flags: int): nat { One(!OneDelta(flags)) + One(!OneInfo(flags)) + One(Addends(flags)) }

  /** The distance and the info of relocation `i` of the group whose numbers these are. */
  function DeltaAt(nums: seq<int>, i: nat): int
    requires |nums| >= 2 && |nums| >= Front(nums[1]) + (i + 1) * Each(nums[1])
  {
    var flags := nums[1];
    if OneDelta(flags) then nums[2] else AtElement(nums, i, 0)
  }

  function InfoAt(nums: seq<int>, i: nat): int
    requires |nums| >= 2 && |nums| >= Front(nums[1]) + (i + 1) * Each(nums[1])
  {
    var flags := nums[1];
    if OneInfo(flags) then nums[2 + One(OneDelta(flags))] else AtElement(nums, i, One(!OneDelta(flags)))
  }

  function AtElement(nums: seq<int>, i: nat, field: nat): int
    requires |nums| >= 2 && |nums| >= Front(nums[1]) + (i + 1) * Each(nums[1]) && field < Each(nums[1])
  {
    assert i * Each(nums[1]) + Each(nums[1]) == (i + 1) * Each(nums[1]);
    nums[Front(nums[1]) + i * Each(nums[1]) + field]
  }

  /** The first `n` relocations of a group. */
  function GroupOf(nums: seq<int>, offset: int, n: nat): (relocs: seq<Reloc>)
    requires |nums| >= 2 && |nums| >= Front(nums[1]) + n * Each(nums[1])
    ensures |relocs| == n
  {
    if n == 0 then [] else
      assert (n - 1) * Each(nums[1]) + Each(nums[1]) == n * Each(nums[1]);
      var before := GroupOf(nums, offset, n - 1);
      before + [Reloc((Last(before, offset) + DeltaAt(nums, n - 1)) % WORD, InfoAt(nums, n - 1))]
  }

  function Last(relocs: seq<Reloc>, offset: int): int {
    if relocs == [] then offset else relocs[|relocs| - 1].offset
  }

  /** How many relocations of a group of that size the numbers are enough for. */
  function Enough(nums: seq<int>, size: nat): (n: nat)
    requires |nums| >= 2 && |nums| >= Front(nums[1])
    ensures n <= size && |nums| >= Front(nums[1]) + n * Each(nums[1])
  {
    var w, left := Each(nums[1]), |nums| - Front(nums[1]);
    if size * w <= left then size else left / w
  }

  /** What a stream delivers from the `idx`th relocation on. */
  function Listed(nums: seq<int>, count: int, idx: int, offset: int): seq<Reloc>
    decreases |nums|
  {
    if idx >= count || |nums| < 2 || |nums| < Front(nums[1]) then []
    else
      var size := if nums[0] < 0 then 0 else nums[0];
      var n := Enough(nums, size);
      var relocs := GroupOf(nums, offset, n);
      if n < size then relocs
      else relocs + Listed(nums[Front(nums[1]) + n * Each(nums[1])..], count, (idx + size) % WORD, Last(relocs, offset))
  }

  /** The first number is how many relocations there are, and the second an offset to start from. */
  function Stream(nums: seq<int>): seq<Reloc> {
    if |nums| < 2 then [] else Listed(nums[2..], nums[0], 0, nums[1])
  }

  // ----- the decoders read exactly that -----

  lemma Bits(flags: int)
    ensures Has(flags, GROUPED_BY_INFO) == OneInfo(flags) && Has(flags, GROUPED_BY_OFFSET_DELTA) == OneDelta(flags)
    ensures SharedAddend(flags) == OneAddend(flags) && OwnAddend(flags) == Addends(flags)
  {
  }

  lemma ReadIfNumbers(present: bool, data: seq<byte>)
    ensures match ReadIf(present, data)
      case None => present && Numbers(data) == []
      case Some(r) => Numbers(data) == (if present then [r.value] else []) + Numbers(r.rest)
  {
  }

  lemma NumbersStep(data: seq<byte>)
    ensures match Next(data)
      case None => Numbers(data) == []
      case Some(r) => Numbers(data) == [r.value] + Numbers(r.rest)
  {
  }

  /** Every field of a group header, by its place among the numbers. */
  lemma HeaderNumbers(data: seq<byte>)
    ensures var nums := Numbers(data);
      match GroupHeader(data)
      case None => |nums| < 2 || |nums| < Front(nums[1])
      case Some(HeaderRead(h, rest)) =>
        && |nums| >= 2 && |nums| >= Front(nums[1]) && h.size == nums[0] && h.flags == nums[1]
        && (OneDelta(h.flags) ==> h.delta == nums[2]) && (OneInfo(h.flags) ==> h.info == nums[2 + One(OneDelta(h.flags))])
        && Numbers(rest) == nums[Front(h.flags)..]
  {
    hide Next, ReadIf, Numbers, Has, SharedAddend, OneInfo, OneDelta, OneAddend;
    NumbersStep(data);
    if Next(data).Some? {
      var size := Next(data).value;
      NumbersStep(size.rest);
      if Next(size.rest).Some? {
        var flags := Next(size.rest).value;
        Bits(flags.value);
        ReadIfNumbers(OneDelta(flags.value), flags.rest);
        if ReadIf(OneDelta(flags.value), flags.rest).Some? {
          var delta := ReadIf(OneDelta(flags.value), flags.rest).value;
          ReadIfNumbers(OneInfo(flags.value), delta.rest);
          if ReadIf(OneInfo(flags.value), delta.rest).Some? {
            var info := ReadIf(OneInfo(flags.value), delta.rest).value;
            ReadIfNumbers(OneAddend(flags.value), info.rest);
          }
        }
      }
    }
  }

  /** Every field of a relocation. */
  lemma ElementNumbers(data: seq<byte>, h: Header, offset: int)
    ensures var nums := Numbers(data);
      match GroupElement(data, h, offset)
      case None => |nums| < Each(h.flags)
      case Some(e) =>
        && |nums| >= Each(h.flags) && Numbers(e.rest) == nums[Each(h.flags)..]
        && e.reloc.offset == (offset + if OneDelta(h.flags) then h.delta else nums[0]) % WORD
        && e.reloc.info == if OneInfo(h.flags) then h.info else nums[One(!OneDelta(h.flags))]
  {
    hide Next, ReadIf, Numbers, Has, OwnAddend, OneInfo, OneDelta, Addends;
    Bits(h.flags);
    ReadIfNumbers(!OneDelta(h.flags), data);
    if ReadIf(!OneDelta(h.flags), data).Some? {
      var delta := ReadIf(!OneDelta(h.flags), data).value;
      ReadIfNumbers(!OneInfo(h.flags), delta.rest);
      if ReadIf(!OneInfo(h.flags), delta.rest).Some? {
        var info := ReadIf(!OneInfo(h.flags), delta.rest).value;
        ReadIfNumbers(Addends(h.flags), info.rest);
      }
    }
  }

  /** One relocation more of a group. */
  lemma {:induction false} ElementsNext(data: seq<byte>, h: Header, offset: int, n: nat)
    ensures var g, g' := GroupElements(data, h, offset, n), GroupElements(data, h, offset, n + 1);
      if !g.complete then !g'.complete && g'.relocs == g.relocs
      else match GroupElement(g.rest, h, g.offset)
        case None => !g'.complete && g'.relocs == g.relocs
        case Some(e) => g' == Group(g.relocs + [e.reloc], true, e.reloc.offset, e.rest)
    decreases n
  {
    hide GroupElement, GroupElements;
    OneElement(data, h, offset, n);
    OneElement(data, h, offset, n + 1);
    match GroupElement(data, h, offset)
    case None =>
    case Some(e) =>
      if n > 0 {
        ElementsNext(e.rest, h, e.reloc.offset, n - 1);
      } else {
        OneElement(e.rest, h, e.reloc.offset, 0);
      }
  }

  ghost predicate Fields(nums: seq<int>, h: Header) {
    && |nums| >= 2 && |nums| >= Front(nums[1]) && h.flags == nums[1]
    && (OneDelta(h.flags) ==> h.delta == nums[2]) && (OneInfo(h.flags) ==> h.info == nums[2 + One(OneDelta(h.flags))])
  }

  lemma {:induction false} ElementsNumbers(nums: seq<int>, data: seq<byte>, h: Header, offset: int, n: nat)
    requires Fields(nums, h) && Numbers(data) == nums[Front(h.flags)..]
    ensures var g, k := GroupElements(data, h, offset, n), Enough(nums, n);
      && g.relocs == GroupOf(nums, offset, k) && (g.complete <==> k == n)
      && (g.complete ==> Numbers(g.rest) == nums[Front(h.flags) + n * Each(h.flags)..] && g.offset == Last(g.relocs, offset))
    decreases n
  {
    hide GroupElement, GroupElements, Numbers, GroupOf, OneInfo, OneDelta, OneAddend, Addends;
    if n == 0 {
      OneElement(data, h, offset, 0);
      NoneYet(nums, offset);
    } else {
      ElementsNumbers(nums, data, h, offset, n - 1);
      ElementsNext(data, h, offset, n - 1);
      EnoughNext(nums, n - 1);
      var g := GroupElements(data, h, offset, n - 1);
      if g.complete {
        OneNumbers(nums, g.rest, h, offset, n - 1);
      }
    }
  }

  lemma NoneYet(nums: seq<int>, offset: int)
    requires |nums| >= 2 && |nums| >= Front(nums[1])
    ensures GroupOf(nums, offset, 0) == [] && Enough(nums, 0) == 0
  {
  }

  lemma OneNumbers(nums: seq<int>, data: seq<byte>, h: Header, offset: int, n: nat)
    requires Fields(nums, h) && |nums| >= Front(h.flags) + n * Each(h.flags)
    requires Numbers(data) == nums[Front(h.flags) + n * Each(h.flags)..]
    ensures var before := GroupOf(nums, offset, n);
      match GroupElement(data, h, Last(before, offset))
      case None => |nums| < Front(h.flags) + (n + 1) * Each(h.flags)
      case Some(e) =>
        && |nums| >= Front(h.flags) + (n + 1) * Each(h.flags) && Numbers(e.rest) == nums[Front(h.flags) + (n + 1) * Each(h.flags)..]
        && GroupOf(nums, offset, n + 1) == before + [e.reloc]
  {
    hide GroupElement, Numbers, OneInfo, OneDelta, OneAddend, Addends;
    var before := GroupOf(nums, offset, n);
    ElementNumbers(data, h, Last(before, offset));
    assert (n + 1) * Each(h.flags) == n * Each(h.flags) + Each(h.flags);
  }

  lemma EnoughNext(nums: seq<int>, n: nat)
    requires |nums| >= 2 && |nums| >= Front(nums[1])
    ensures var k, left := Enough(nums, n), |nums| - Front(nums[1]);
      Enough(nums, n + 1) == if k == n && (n + 1) * Each(nums[1]) <= left then n + 1 else k
  {
    hide Front, Each;
    var w, left := Each(nums[1]), |nums| - Front(nums[1]);
    assert (n + 1) * w == n * w + w;
    if n * w <= left < (n + 1) * w {
      DivUnique(left, w, n, left - n * w);
    } else if n * w > left {
      DivBelow(left, w, n);
    }
  }

  lemma DivBelow(left: nat, w: nat, n: nat)
    requires n * w > left
    ensures left / w < n
  {
    assert w * (left / w) <= left;
  }

  lemma {:induction false} GroupsNumbers(data: seq<byte>, count: int, idx: int, offset: int)
    ensures Groups(data, count, idx, offset) == Listed(Numbers(data), count, idx, offset)
    decreases |data|
  {
    hide GroupHeader, GroupElements, GroupElement, Groups, Numbers, Front, Each, Enough, GroupOf, OneInfo, OneDelta;
    GroupsStep(data, count, idx, offset);
    HeaderNumbers(data);
    if idx < count && GroupHeader(data).Some? {
      var HeaderRead(h, rest) := GroupHeader(data).value;
      ElementsNumbers(Numbers(data), rest, h, offset, Size(h));
      var g := GroupElements(rest, h, offset, Size(h));
      if g.complete {
        GroupsNumbers(g.rest, count, (idx + Size(h)) % WORD, g.offset);
      }
    }
  }

  /** For all bytes: what a stream delivers is what its numbers say. */
  lemma RelocsByNumbers(data: seq<byte>)
    ensures Relocs(data) == Stream(Numbers(data))
  {
    hide Next, Groups, Listed, Numbers;
    NumbersStep(data);
    if Next(data).Some? {
      var count := Next(data).value;
      NumbersStep(count.rest);
      if Next(count.rest).Some? {
        var offset := Next(count.rest).value;
        assert Numbers(data)[2..] == Numbers(offset.rest);
        GroupsNumbers(offset.rest, count.value, 0, offset.value);
      }
    }
  }

  /** xhook's iterator delivers the same, if no group is empty or overlong. */
  lemma IterByNumbers(data: seq<byte>)
    requires RegularStream(data)
    ensures IterRelocs(data) == Stream(Numbers(data))
  {
    hide IterRelocs, Relocs, RegularStream, Stream, Numbers;
    DecodersAgree(data);
    RelocsByNumbers(data);
  }

  // ----- known streams -----

  lemma {:induction false} SmallNumbers(data: seq<byte>)
    requires forall i :: 0 <= i < |data| ==> data[i] < 64
    ensures Numbers(data) == seq(|data|, i requires 0 <= i < |data| => data[i] as int)
    decreases |data|
  {
    hide Next;
    NumbersStep(data);
    if data == [] {
      NothingLeft();
    } else {
      SmallRead(data[0], data[1..], data);
      SmallNumbers(data[1..]);
    }
  }

  /** One group of two relocations for each way to share: nothing, infos, distances, both. */
  lemma KnownStreams()
    ensures Relocs([2, 0, 2, 0, 5, 7, 6, 8]) == [Reloc(5, 7), Reloc(11, 8)]
    ensures Relocs([2, 0, 2, 1, 7, 5, 6]) == [Reloc(5, 7), Reloc(11, 7)]
    ensures Relocs([2, 16, 2, 2, 8, 7, 9]) == [Reloc(24, 7), Reloc(32, 9)]
    ensures Relocs([2, 16, 2, 3, 8, 7]) == [Reloc(24, 7), Reloc(32, 7)]
  {
    hide Relocs;
    KnownStream([2, 0, 2, 0, 5, 7, 6, 8], [2, 0, 5, 7, 6, 8], 5, 7, 6, 8);
    KnownStream([2, 0, 2, 1, 7, 5, 6], [2, 1, 7, 5, 6], 5, 7, 6, 7);
    KnownStream([2, 16, 2, 2, 8, 7, 9], [2, 2, 8, 7, 9], 8, 7, 8, 9);
    KnownStream([2, 16, 2, 3, 8, 7], [2, 3, 8, 7], 8, 7, 8, 7);
  }

  /** With addends of their own, and with a common one. */
  lemma KnownAddends()
    ensures Relocs([2, 0, 2, 8, 5, 7, 1, 6, 8, 2]) == [Reloc(5, 7), Reloc(11, 8)]
    ensures Relocs([2, 0, 2, 9, 7, 5, 1, 6, 2]) == [Reloc(5, 7), Reloc(11, 7)]
    ensures Relocs([2, 0, 2, 12, 1, 5, 7, 6, 8]) == [Reloc(5, 7), Reloc(11, 8)]
  {
    hide Relocs;
    KnownStream([2, 0, 2, 8, 5, 7, 1, 6, 8, 2], [2, 8, 5, 7, 1, 6, 8, 2], 5, 7, 6, 8);
    KnownStream([2, 0, 2, 9, 7, 5, 1, 6, 2], [2, 9, 7, 5, 1, 6, 2], 5, 7, 6, 7);
    KnownStream([2, 0, 2, 12, 1, 5, 7, 6, 8], [2, 12, 1, 5, 7, 6, 8], 5, 7, 6, 8);
  }

  lemma KnownStream(data: seq<byte>, nums: seq<int>, delta0: int, info0: int, delta1: int, info1: int)
    requires |nums| >= 2 && |data| == |nums| + 2 && data[0] == 2 && data[1] < 64
    requires forall i :: 0 <= i < |nums| ==> 0 <= nums[i] < 64 && data[i + 2] == nums[i] as byte
    requires nums[0] == 2 && |nums| == Front(nums[1]) + 2 * Each(nums[1])
    requires DeltaAt(nums, 0) == delta0 && InfoAt(nums, 0) == info0 && DeltaAt(nums, 1) == delta1 && InfoAt(nums, 1) == info1
    requires 0 <= delta0 < 64 && 0 <= delta1 < 64
    ensures var first := data[1] as int + delta0; Relocs(data) == [Reloc(first, info0), Reloc(first + delta1, info1)]
  {
    hide Relocs, Numbers, DeltaAt, InfoAt, Front, Each;
    assert forall i :: 2 <= i < |data| ==> data[i] == nums[i - 2] as byte;
    SmallNumbers(data);
    RelocsByNumbers(data);
    assert Numbers(data)[2..] == nums;
    var offset := data[1] as int;
    assert GroupOf(nums, offset, 0) == [];
    assert GroupOf(nums, offset, 1) == [Reloc(offset + delta0, info0)];
    assert GroupOf(nums, offset, 2) == [Reloc(offset + delta0, info0), Reloc(offset + delta0 + delta1, info1)];
    assert Enough(nums, 2) == 2;
    assert Listed(nums[|nums|..], 2, 2, offset + delta0 + delta1) == [];
  }

  // ----- what a packer writes -----

  /** The numbers of one relocation. */
  function ElementOf(g: Packed, i: nat, before: int): seq<int>
    requires i < |g.relocs| == |g.addends|
  {
    (if OneDelta(g.flags) then [] else [(g.relocs[i].offset - before) % WORD])
    + (if OneInfo(g.flags) then [] else [g.relocs[i].info])
    + if Addends(g.flags) then [g.addends[i]] else []
  }

  /** The numbers of the relocations from `i` on. */
  function ElementsOf(g: Packed, i: nat, before: int): seq<int>
    requires i <= |g.relocs| == |g.addends|
    decreases |g.relocs| - i
  {
    if i == |g.relocs| then [] else ElementOf(g, i, before) + ElementsOf(g, i + 1, g.relocs[i].offset)
  }

  lemma EmitNumbers(present: bool, w: int, tail: seq<byte>)
    requires Word(w)
    ensures Numbers(Emit(w, tail)) == [w] + Numbers(tail)
    ensures Numbers(EmitIf(present, w, tail)) == (if present then [w] else []) + Numbers(tail)
  {
    hide Emit, Next, Numbers;
    EmitRead(w, tail);
    NumbersStep(Emit(w, tail));
  }

  /** The layout of a packed group, number by number. */
  lemma GroupLayout(g: Packed, offset: int, tail: seq<byte>)
    requires Packable(g, offset)
    ensures Numbers(PackGroup(g, offset, tail)) == [|g.relocs|, g.flags]
      + (if OneDelta(g.flags) then [g.delta] else []) + (if OneInfo(g.flags) then [g.info] else [])
      + (if OneAddend(g.flags) then [g.addend] else []) + ElementsOf(g, 0, offset) + Numbers(tail)
  {
    hide Emit, EmitIf, Numbers, Has, PackElements, ElementsOf, OneDelta, OneInfo, OneAddend, SharedAddend;
    Bits(g.flags);
    var rest := PackElements(g, 0, offset, tail);
    var fifth := EmitIf(OneAddend(g.flags), g.addend, rest);
    var fourth := EmitIf(OneInfo(g.flags), g.info, fifth);
    var third := EmitIf(OneDelta(g.flags), g.delta, fourth);
    ElementsLayout(g, 0, offset, offset, tail);
    EmitNumbers(OneAddend(g.flags), g.addend, rest);
    EmitNumbers(OneInfo(g.flags), g.info, fifth);
    EmitNumbers(OneDelta(g.flags), g.delta, fourth);
    EmitNumbers(true, g.flags, third);
    EmitNumbers(true, |g.relocs|, Emit(g.flags, third));
  }

  lemma {:induction false} ElementsLayout(g: Packed, i: nat, before: int, offset: int, tail: seq<byte>)
    requires Packable(g, offset) && i <= |g.relocs|
    ensures Numbers(PackElements(g, i, before, tail)) == ElementsOf(g, i, before) + Numbers(tail)
    decreases |g.relocs| - i
  {
    hide Emit, EmitIf, Numbers, Has, OwnAddend, ElementOf;
    if i < |g.relocs| {
      assert Shares(g, i, Before(g, i, offset));
      var rest := PackElements(g, i + 1, g.relocs[i].offset, tail);
      ElementsLayout(g, i + 1, g.relocs[i].offset, offset, tail);
      OneLayout(g, i, before, rest);
      Assoc(ElementOf(g, i, before), ElementsOf(g, i + 1, g.relocs[i].offset), Numbers(tail));
    }
  }

  lemma OneLayout(g: Packed, i: nat, before: int, rest: seq<byte>)
    requires i < |g.relocs| == |g.addends| && Word(g.relocs[i].info) && Word(g.addends[i])
    ensures Numbers(EmitIf(!Has(g.flags, GROUPED_BY_OFFSET_DELTA), (g.relocs[i].offset - before) % WORD,
      EmitIf(!Has(g.flags, GROUPED_BY_INFO), g.relocs[i].info, EmitIf(OwnAddend(g.flags), g.addends[i], rest))))
      == ElementOf(g, i, before) + Numbers(rest)
  {
    Bits(g.flags);
    hide Emit, EmitIf, Numbers, Has, OwnAddend, Addends, OneDelta, OneInfo;
    var third := EmitIf(Addends(g.flags), g.addends[i], rest);
    var second := EmitIf(!OneInfo(g.flags), g.relocs[i].info, third);
    EmitNumbers(Addends(g.flags), g.addends[i], rest);
    EmitNumbers(!OneInfo(g.flags), g.relocs[i].info, third);
    EmitNumbers(!OneDelta(g.flags), (g.relocs[i].offset - before) % WORD, second);
  }
}

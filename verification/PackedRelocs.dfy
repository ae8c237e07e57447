/** The packed relocations of Android (APS2, behind the magic), 64-bit RELA form: bytehook's decoder
    calls back for every relocation, xhook's is an iterator. Addends are read and dropped. */
module PackedRelocs {
  import opened Basics
  import opened Sleb128

  const GROUPED_BY_INFO := 1
  const GROUPED_BY_OFFSET_DELTA := 2
  const GROUPED_BY_ADDEND := 4
  const HAS_ADDEND := 8

  predicate Has(flags: int, flag: int)
    requires flag > 0
  {
    (flags / flag) % 2 == 1
  }

  datatype Reloc = Reloc(offset: int, info: int)

  // ----- what both decoders read -----

  function ReadIf(present: bool, data: seq<byte>): Option<Read> {
    if present then Next(data) else Some(Read(0, data))
  }

  datatype Header = Header(size: int, flags: int, delta: int, info: int)

  datatype HeaderRead = HeaderRead(header: Header, rest: seq<byte>)

  predicate SharedAddend(flags: int) {
    Has(flags, HAS_ADDEND) && Has(flags, GROUPED_BY_ADDEND)
  }

  predicate OwnAddend(flags: int) {
    Has(flags, HAS_ADDEND) && !Has(flags, GROUPED_BY_ADDEND)
  }

  /** The fields in front of a group. */
  function GroupHeader(data: seq<byte>): (r: Option<HeaderRead>)
    ensures r.Some? ==> |r.value.rest| < |data|
  {
    match Next(data)
    case None => None
    case Some(size) => match Next(size.rest)
      case None => None
      case Some(flags) => match ReadIf(Has(flags.value, GROUPED_BY_OFFSET_DELTA), flags.rest)
        case None => None
        case Some(delta) => match ReadIf(Has(flags.value, GROUPED_BY_INFO), delta.rest)
          case None => None
          case Some(info) => match ReadIf(SharedAddend(flags.value), info.rest)
            case None => None
            case Some(addend) => Some(HeaderRead(Header(size.value, flags.value, delta.value, info.value), addend.rest))
  }

  datatype Element = Element(reloc: Reloc, rest: seq<byte>)

  /** One relocation of a group, `offset` being that of the one before. */
  function GroupElement(data: seq<byte>, h: Header, offset: int): (r: Option<Element>)
    ensures r.Some? ==> |r.value.rest| <= |data|
  {
    match ReadIf(!Has(h.flags, GROUPED_BY_OFFSET_DELTA), data)
    case None => None
    case Some(delta) => match ReadIf(!Has(h.flags, GROUPED_BY_INFO), delta.rest)
      case None => None
      case Some(info) => match ReadIf(OwnAddend(h.flags), info.rest)
        case None => None
        case Some(addend) =>
          var step := if Has(h.flags, GROUPED_BY_OFFSET_DELTA) then h.delta else delta.value;
          Some(Element(Reloc((offset + step) % WORD, if Has(h.flags, GROUPED_BY_INFO) then h.info else info.value), addend.rest))
  }

  datatype Group = Group(relocs: seq<Reloc>, complete: bool, offset: int, rest: seq<byte>)

  /** The relocations of a group, as far as the data goes. */
  function GroupElements(data: seq<byte>, h: Header, offset: int, n: nat): (g: Group)
    ensures |g.rest| <= |data| && (g.complete ==> |g.relocs| == n)
    decreases n
  {
    if n == 0 then Group([], true, offset, data)
    else match GroupElement(data, h, offset)
      case None => Group([], false, offset, data)
      case Some(e) =>
        var g := GroupElements(e.rest, h, e.reloc.offset, n - 1);
        g.(relocs := [e.reloc] + g.relocs)
  }

  function Size(h: Header): nat {
    if h.size < 0 then 0 else h.size
  }

  // ----- bytehook -----

  /** What bh_elf_iterate_aps2 delivers from the `idx`th relocation on. */
  function Groups(data: seq<byte>, count: int, idx: int, offset: int): seq<Reloc>
    decreases |data|
  {
    if idx >= count then []
    else match GroupHeader(data)
      case None => []
      case Some(HeaderRead(h, rest)) =>
        var g := GroupElements(rest, h, offset, Size(h));
        if g.complete then g.relocs + Groups(g.rest, count, (idx + Size(h)) % WORD, g.offset) else g.relocs
  }

  function Relocs(data: seq<byte>): seq<Reloc> {
    match Next(data)
    case None => []
    case Some(count) => match Next(count.rest)
      case None => []
      case Some(offset) => Groups(offset.rest, count.value, 0, offset.value)
  }

  /** Everything up to the first relocation at which the callback says stop. */
  function Until(s: seq<Reloc>, more: Reloc -> bool): seq<Reloc> {
    if s == [] then [] else if more(s[0]) then [s[0]] + Until(s[1..], more) else [s[0]]
  }

  lemma {:induction false} UntilConcat(a: seq<Reloc>, b: seq<Reloc>, more: Reloc -> bool)
    ensures Until(a + b, more) == if GoesOn(a, more) then a + Until(b, more) else Until(a, more)
    ensures GoesOn(a, more) ==> Until(a, more) == a
  {
    if a == [] {
      assert a + b == b;
    } else {
      UntilConcat(a[1..], b, more);
      assert (a + b)[1..] == a[1..] + b;
    }
  }

  /** The callback is called with the first relocations, and stops at the last of them or nowhere. */
  lemma {:induction false} UntilExactly(s: seq<Reloc>, more: Reloc -> bool)
    ensures Until(s, more) <= s && forall i :: 0 <= i < |Until(s, more)| - 1 ==> more(s[i])
    ensures |Until(s, more)| < |s| ==> Until(s, more) != [] && !more(s[|Until(s, more)| - 1])
  {
    if s != [] {
      UntilExactly(s[1..], more);
      assert forall i :: 0 < i < |s| ==> s[i] == s[1..][i - 1];
    }
  }

  predicate GoesOn(s: seq<Reloc>, more: Reloc -> bool) {
    s == [] || (more(s[0]) && GoesOn(s[1..], more))
  }

  // ----- xhook -----

  datatype Iter = Iter(rest: seq<byte>, count: int, index: int, header: Header, groupIndex: int, offset: int)

  /** xh_elf_packed_reloc_iterator_next; None where it returns NULL. */
  function IterNext(it: Iter): Option<(Iter, Reloc)> {
    if it.index >= it.count then None
    else
      var boundary := it.groupIndex == it.header.size;
      match if boundary then GroupHeader(it.rest) else Some(HeaderRead(it.header, it.rest))
      case None => None
      case Some(HeaderRead(h, rest)) => match GroupElement(rest, h, it.offset)
        case None => None
        case Some(e) =>
          Some((Iter(e.rest, it.count, it.index + 1, h, (if boundary then 0 else it.groupIndex) + 1, e.reloc.offset), e.reloc))
  }

  function IterAll(it: Iter): seq<Reloc>
    decreases it.count - it.index
  {
    match IterNext(it)
    case None => []
    case Some((it', r)) => [r] + IterAll(it')
  }

  function IterInit(data: seq<byte>): Option<Iter> {
    match Next(data)
    case None => None
    case Some(count) => match Next(count.rest)
      case None => None
      case Some(offset) => Some(Iter(offset.rest, count.value, 0, Header(0, 0, 0, 0), 0, offset.value))
  }

  function IterRelocs(data: seq<byte>): seq<Reloc> {
    match IterInit(data)
    case None => []
    case Some(it) => IterAll(it)
  }

  // ----- agreement -----

  /** Every group that the data announces has at least one relocation, and no more than are left. */
  ghost predicate Regular(data: seq<byte>, count: int, idx: int, offset: int)
    decreases |data|
  {
    idx < count ==>
      match GroupHeader(data)
      case None => true
      case Some(HeaderRead(h, rest)) =>
        && 0 < h.size <= count - idx
        && var g := GroupElements(rest, h, offset, h.size);
           g.complete ==> Regular(g.rest, count, idx + h.size, g.offset)
  }

  ghost predicate RegularStream(data: seq<byte>) {
    match Next(data)
    case None => true
    case Some(count) => match Next(count.rest)
      case None => true
      case Some(offset) => count.value < WORD && Regular(offset.rest, count.value, 0, offset.value)
  }

  /** A stream on which the decoders agree, group by group. Of a group with more relocations than are
      left, bytehook delivers all that the data holds, and xhook no more than are left. Behind the header
      of an empty group bytehook reads groups, and xhook elements of that one. */
  ghost predicate Alike(data: seq<byte>, count: int, idx: int, offset: int)
    decreases |data|
  {
    idx < count ==>
      match GroupHeader(data)
      case None => true
      case Some(HeaderRead(h, rest)) =>
        var g := GroupElements(rest, h, offset, Size(h));
        if h.size <= 0 then GroupElements(rest, h, offset, count - idx).relocs == Groups(rest, count, idx, offset)
        else if h.size > count - idx then |g.relocs| <= count - idx
        else g.complete ==> Alike(g.rest, count, idx + h.size, g.offset)
  }

  ghost predicate AlikeStream(data: seq<byte>) {
    match Next(data)
    case None => true
    case Some(count) => match Next(count.rest)
      case None => true
      case Some(offset) => Alike(offset.rest, count.value, 0, offset.value)
  }

  /** The iterator behind a group. */
  function Behind(it: Iter, g: Group, k: int): Iter {
    Iter(g.rest, it.count, it.index + k, it.header, it.header.size, g.offset)
  }

  /** Inside a group the iterator delivers what is left of it, and then goes on. */
  lemma {:induction false} IterInGroup(it: Iter, k: nat)
    requires 0 < it.groupIndex == it.header.size - k && it.index + k <= it.count
    ensures var g := GroupElements(it.rest, it.header, it.offset, k);
      IterAll(it) == g.relocs + if g.complete then IterAll(Behind(it, g, k)) else []
    decreases k
  {
    hide GroupElement, GroupHeader, IterAll, GroupElements;
    OneElement(it.rest, it.header, it.offset, k);
    if k == 0 {
      assert Behind(it, GroupElements(it.rest, it.header, it.offset, 0), 0) == it;
      assert [] + IterAll(it) == IterAll(it);
    } else {
      IterStep(it);
      match GroupElement(it.rest, it.header, it.offset)
      case None =>
      case Some(e) =>
        var it' := Iter(e.rest, it.count, it.index + 1, it.header, it.groupIndex + 1, e.reloc.offset);
        IterInGroup(it', k - 1);
        var g := GroupElements(e.rest, it.header, e.reloc.offset, k - 1);
        assert Behind(it, g, k) == Behind(it', g, k - 1);
        Assoc([e.reloc], g.relocs, if g.complete then IterAll(Behind(it, g, k)) else []);
    }
  }

  lemma OneElement(data: seq<byte>, h: Header, offset: int, n: nat)
    ensures GroupElements(data, h, offset, n) ==
      if n == 0 then Group([], true, offset, data)
      else match GroupElement(data, h, offset)
        case None => Group([], false, offset, data)
        case Some(e) =>
          var g := GroupElements(e.rest, h, e.reloc.offset, n - 1);
          g.(relocs := [e.reloc] + g.relocs)
  {
  }

  lemma IterStep(it: Iter)
    ensures match IterNext(it)
      case None => IterAll(it) == []
      case Some((it', r)) => IterAll(it) == [r] + IterAll(it') && it'.count - it'.index == it.count - it.index - 1 && it.count > it.index
  {
  }

  /** From between two groups, the iterator delivers the next one and is between groups again. */
  lemma IterGroup(it: Iter, h: Header, rest: seq<byte>)
    requires it.groupIndex == it.header.size && it.index < it.count && GroupHeader(it.rest) == Some(HeaderRead(h, rest))
    requires 0 < h.size <= it.count - it.index
    ensures var g := GroupElements(rest, h, it.offset, h.size);
      IterAll(it) == g.relocs + if g.complete
        then IterAll(Iter(g.rest, it.count, it.index + h.size, h, h.size, g.offset)) else []
  {
    hide GroupElement, GroupHeader, IterAll;
    IterStep(it);
    match GroupElement(rest, h, it.offset)
    case None =>
    case Some(e) =>
      var it' := Iter(e.rest, it.count, it.index + 1, h, 1, e.reloc.offset);
      var g := GroupElements(e.rest, h, e.reloc.offset, h.size - 1);
      IterInGroup(it', h.size - 1);
      assert Behind(it', g, h.size - 1) == Iter(g.rest, it.count, it.index + h.size, h, h.size, g.offset);
      Assoc([e.reloc], g.relocs, if g.complete then IterAll(Behind(it', g, h.size - 1)) else []);
  }

  /** An iterator that does not meet the end of its group reads elements of it as long as any are due. */
  lemma {:induction false} IterRunsOut(it: Iter)
    requires 0 < it.groupIndex && it.index <= it.count
    requires it.header.size < it.groupIndex || it.count - it.index <= it.header.size - it.groupIndex
    ensures IterAll(it) == GroupElements(it.rest, it.header, it.offset, it.count - it.index).relocs
    decreases it.count - it.index
  {
    hide GroupElement, GroupHeader, IterAll, GroupElements;
    OneElement(it.rest, it.header, it.offset, it.count - it.index);
    IterStep(it);
    if it.index < it.count && GroupElement(it.rest, it.header, it.offset).Some? {
      var e := GroupElement(it.rest, it.header, it.offset).value;
      IterRunsOut(Iter(e.rest, it.count, it.index + 1, it.header, it.groupIndex + 1, e.reloc.offset));
    }
  }

  lemma IterIrregular(it: Iter, h: Header, rest: seq<byte>)
    requires it.groupIndex == it.header.size && it.index < it.count && GroupHeader(it.rest) == Some(HeaderRead(h, rest))
    requires h.size <= 0 || it.count - it.index < h.size
    ensures IterAll(it) == GroupElements(rest, h, it.offset, it.count - it.index).relocs
  {
    hide GroupElement, GroupHeader, IterAll, GroupElements;
    IterStep(it);
    OneElement(rest, h, it.offset, it.count - it.index);
    if GroupElement(rest, h, it.offset).Some? {
      var e := GroupElement(rest, h, it.offset).value;
      IterRunsOut(Iter(e.rest, it.count, it.index + 1, h, 1, e.reloc.offset));
    }
  }

  lemma {:induction false} ElementsBound(data: seq<byte>, h: Header, offset: int, n: nat)
    ensures var g := GroupElements(data, h, offset, n); |g.relocs| <= n && (g.complete <==> |g.relocs| == n)
    decreases n
  {
    hide GroupElement;
    if n > 0 && GroupElement(data, h, offset).Some? {
      var e := GroupElement(data, h, offset).value;
      ElementsBound(e.rest, h, e.reloc.offset, n - 1);
    }
  }

  /** Reading fewer elements delivers the first of those. */
  lemma {:induction false} FewerElements(data: seq<byte>, h: Header, offset: int, n: nat, m: nat)
    requires n <= m
    ensures var few, all := GroupElements(data, h, offset, n).relocs, GroupElements(data, h, offset, m).relocs;
      few == if n <= |all| then all[..n] else all
    decreases n
  {
    hide GroupElement;
    if n > 0 && GroupElement(data, h, offset).Some? {
      var e := GroupElement(data, h, offset).value;
      FewerElements(e.rest, h, e.reloc.offset, n - 1, m - 1);
    }
  }

  /** Of a group that is too long both deliver the same exactly if the data ends before the count does. */
  lemma OverlongGroup(it: Iter, h: Header, rest: seq<byte>)
    requires it.groupIndex == it.header.size && it.index < it.count && GroupHeader(it.rest) == Some(HeaderRead(h, rest))
    requires it.count - it.index < h.size
    ensures IterAll(it) == Groups(it.rest, it.count, it.index, it.offset)
      <==> |GroupElements(rest, h, it.offset, h.size).relocs| <= it.count - it.index
  {
    hide GroupElement, GroupHeader, IterAll, GroupElements, IterNext, Groups;
    IterIrregular(it, h, rest);
    FewerElements(rest, h, it.offset, it.count - it.index, h.size);
    ElementsBound(rest, h, it.offset, h.size);
    GroupsStep(it.rest, it.count, it.index, it.offset);
  }

  /** Between groups both decoders go on alike exactly on such streams. */
  lemma {:induction false} SameExactly(it: Iter)
    requires it.groupIndex == it.header.size && 0 <= it.index && it.count < WORD
    ensures IterAll(it) == Groups(it.rest, it.count, it.index, it.offset) <==> Alike(it.rest, it.count, it.index, it.offset)
    decreases |it.rest|
  {
    hide GroupElement, GroupHeader, IterAll, GroupElements, IterNext, Groups;
    GroupsStep(it.rest, it.count, it.index, it.offset);
    if it.index < it.count && GroupHeader(it.rest).Some? {
      var HeaderRead(h, rest) := GroupHeader(it.rest).value;
      if h.size <= 0 {
        IterIrregular(it, h, rest);
        OneElement(rest, h, it.offset, 0);
        assert [] + Groups(rest, it.count, it.index, it.offset) == Groups(rest, it.count, it.index, it.offset);
      } else if it.count - it.index < h.size {
        OverlongGroup(it, h, rest);
      } else {
        IterGroup(it, h, rest);
        var g := GroupElements(rest, h, it.offset, h.size);
        var it' := Iter(g.rest, it.count, it.index + h.size, h, h.size, g.offset);
        if g.complete {
          SameExactly(it');
        }
        SameFront(g.relocs, if g.complete then IterAll(it') else [],
                  if g.complete then Groups(g.rest, it.count, it.index + h.size, g.offset) else []);
      }
    } else {
      IterStep(it);
      NoGroup(it);
    }
  }

  lemma SameFront(a: seq<Reloc>, b: seq<Reloc>, c: seq<Reloc>)
    ensures a + b == a + c <==> b == c
  {
    if a + b == a + c {
      assert b == (a + b)[|a|..] && c == (a + c)[|a|..];
    }
  }

  lemma NoGroup(it: Iter)
    requires it.groupIndex == it.header.size && (it.index >= it.count || GroupHeader(it.rest) == None)
    ensures IterNext(it) == None
  {
  }

  /** For all bytes: when the two decoders deliver the same relocations. */
  lemma AgreeExactly(data: seq<byte>)
    ensures IterRelocs(data) == Relocs(data) <==> AlikeStream(data)
  {
    hide IterAll, Groups, Alike;
    if IterInit(data).Some? {
      NextIsWord(data, 0, 0);
      SameExactly(IterInit(data).value);
    }
  }

  /** Groups that are neither empty nor too long do not part them. */
  lemma {:induction false} RegularAlike(data: seq<byte>, count: int, idx: int, offset: int)
    requires Regular(data, count, idx, offset)
    ensures Alike(data, count, idx, offset)
    decreases |data|
  {
    hide GroupHeader, GroupElements, Groups;
    if idx < count && GroupHeader(data).Some? {
      var HeaderRead(h, rest) := GroupHeader(data).value;
      var g := GroupElements(rest, h, offset, h.size);
      if g.complete {
        RegularAlike(g.rest, count, idx + h.size, g.offset);
      }
    }
  }

  /** The two decoders deliver the same relocations from every regular stream. */
  lemma DecodersAgree(data: seq<byte>)
    requires RegularStream(data)
    ensures IterRelocs(data) == Relocs(data)
  {
    hide IterRelocs, Relocs, Alike, Regular;
    AgreeExactly(data);
    if IterInit(data).Some? {
      var it := IterInit(data).value;
      RegularAlike(it.rest, it.count, 0, it.offset);
    }
  }

  // ----- truncation -----

  lemma ReadIfMore(present: bool, data: seq<byte>, more: seq<byte>)
    requires ReadIf(present, data).Some?
    ensures ReadIf(present, data + more) == Some(Read(ReadIf(present, data).value.value, ReadIf(present, data).value.rest + more))
  {
    if present {
      NextMore(data, 0, 0, more);
    }
  }

  lemma HeaderMore(data: seq<byte>, more: seq<byte>)
    requires GroupHeader(data).Some?
    ensures GroupHeader(data + more) == Some(HeaderRead(GroupHeader(data).value.header, GroupHeader(data).value.rest + more))
  {
    hide Next, ReadIf;
    var size := Next(data).value;
    ReadMore(data, more);
    var flags := Next(size.rest).value;
    ReadMore(size.rest, more);
    var delta := ReadIf(Has(flags.value, GROUPED_BY_OFFSET_DELTA), flags.rest).value;
    ReadIfMore(Has(flags.value, GROUPED_BY_OFFSET_DELTA), flags.rest, more);
    var info := ReadIf(Has(flags.value, GROUPED_BY_INFO), delta.rest).value;
    ReadIfMore(Has(flags.value, GROUPED_BY_INFO), delta.rest, more);
    ReadIfMore(SharedAddend(flags.value), info.rest, more);
  }

  lemma ReadMore(data: seq<byte>, more: seq<byte>)
    requires Next(data).Some?
    ensures Next(data + more) == Some(Read(Next(data).value.value, Next(data).value.rest + more))
  {
    NextMore(data, 0, 0, more);
  }

  lemma ElementMore(data: seq<byte>, h: Header, offset: int, more: seq<byte>)
    requires GroupElement(data, h, offset).Some?
    ensures var e := GroupElement(data, h, offset).value; GroupElement(data + more, h, offset) == Some(Element(e.reloc, e.rest + more))
  {
    hide ReadIf;
    var delta := ReadIf(!Has(h.flags, GROUPED_BY_OFFSET_DELTA), data).value;
    ReadIfMore(!Has(h.flags, GROUPED_BY_OFFSET_DELTA), data, more);
    var info := ReadIf(!Has(h.flags, GROUPED_BY_INFO), delta.rest).value;
    ReadIfMore(!Has(h.flags, GROUPED_BY_INFO), delta.rest, more);
    ReadIfMore(OwnAddend(h.flags), info.rest, more);
  }

  lemma {:induction false} ElementsMore(data: seq<byte>, h: Header, offset: int, n: nat, more: seq<byte>)
    ensures var g, g' := GroupElements(data, h, offset, n), GroupElements(data + more, h, offset, n);
      g.relocs <= g'.relocs && (g.complete ==> g' == g.(rest := g.rest + more))
    decreases n
  {
    hide GroupElement;
    if n > 0 && GroupElement(data, h, offset).Some? {
      var e := GroupElement(data, h, offset).value;
      ElementMore(data, h, offset, more);
      ElementsMore(e.rest, h, e.reloc.offset, n - 1, more);
    }
  }

  /** Cutting a regular stream anywhere leaves a regular one. */
  lemma {:induction false} RegularCut(data: seq<byte>, more: seq<byte>, count: int, idx: int, offset: int)
    requires Regular(data + more, count, idx, offset)
    ensures Regular(data, count, idx, offset)
    decreases |data|
  {
    hide GroupHeader, GroupElements;
    if idx < count && GroupHeader(data).Some? {
      var HeaderRead(h, rest) := GroupHeader(data).value;
      HeaderMore(data, more);
      ElementsMore(rest, h, offset, h.size, more);
      var g := GroupElements(rest, h, offset, h.size);
      if g.complete {
        RegularCut(g.rest, more, count, idx + h.size, g.offset);
      }
    }
  }

  /** What a cut stream delivers is a prefix of what the whole one does. */
  lemma {:induction false} GroupsCut(data: seq<byte>, more: seq<byte>, count: int, idx: int, offset: int)
    ensures Groups(data, count, idx, offset) <= Groups(data + more, count, idx, offset)
    decreases |data|
  {
    hide GroupHeader, GroupElements, Size;
    if idx < count && GroupHeader(data).Some? {
      var HeaderRead(h, rest) := GroupHeader(data).value;
      HeaderMore(data, more);
      ElementsMore(rest, h, offset, Size(h), more);
      var g := GroupElements(rest, h, offset, Size(h));
      if g.complete {
        GroupsCut(g.rest, more, count, (idx + Size(h)) % WORD, g.offset);
      }
    }
  }

  lemma StreamCut(data: seq<byte>, more: seq<byte>)
    ensures RegularStream(data + more) ==> RegularStream(data)
    ensures Relocs(data) <= Relocs(data + more)
  {
    hide Next, Regular, Groups;
    if Next(data).Some? {
      var count := Next(data).value;
      ReadMore(data, more);
      if Next(count.rest).Some? {
        var offset := Next(count.rest).value;
        ReadMore(count.rest, more);
        GroupsCut(offset.rest, more, count.value, 0, offset.value);
        if RegularStream(data + more) {
          RegularCut(offset.rest, more, count.value, 0, offset.value);
        }
      }
    }
  }

  // ----- agreement whatever follows -----

  /** The headers of groups that bytehook reads. */
  function Headers(data: seq<byte>, count: int, idx: int, offset: int): seq<Header>
    decreases |data|
  {
    if idx >= count then []
    else match GroupHeader(data)
      case None => []
      case Some(HeaderRead(h, rest)) =>
        var g := GroupElements(rest, h, offset, Size(h));
        [h] + if g.complete then Headers(g.rest, count, (idx + Size(h)) % WORD, g.offset) else []
  }

  function AllHeaders(data: seq<byte>): seq<Header> {
    match Next(data)
    case None => []
    case Some(count) => match Next(count.rest)
      case None => []
      case Some(offset) => Headers(offset.rest, count.value, 0, offset.value)
  }

  /** The first `n` bytes, and something behind them that does not complete another header, on which the
      decoders differ. */
  predicate PartedBy(data: seq<byte>, n: nat, more: seq<byte>) {
    && n <= |data| && AllHeaders(data[..n] + more) == AllHeaders(data[..n])
    && IterRelocs(data[..n] + more) != Relocs(data[..n] + more)
  }

  lemma {:induction false} SameHeaders(data: seq<byte>, more: seq<byte>, count: int, idx: int, offset: int)
    requires Regular(data, count, idx, offset) && count < WORD && 0 <= idx
    requires Headers(data + more, count, idx, offset) == Headers(data, count, idx, offset)
    ensures Regular(data + more, count, idx, offset)
    decreases |data|
  {
    hide GroupHeader, GroupElements;
    if idx < count && GroupHeader(data).Some? {
      var HeaderRead(h, rest) := GroupHeader(data).value;
      HeaderMore(data, more);
      ElementsMore(rest, h, offset, h.size, more);
      var g, g' := GroupElements(rest, h, offset, h.size), GroupElements(rest + more, h, offset, h.size);
      if g.complete {
        assert Headers(data, count, idx, offset)[1..] == Headers(g.rest, count, idx + h.size, g.offset);
        assert Headers(data + more, count, idx, offset)[1..] == Headers(g'.rest, count, idx + h.size, g.offset);
        SameHeaders(g.rest, more, count, idx + h.size, g.offset);
      } else if g'.complete {
        assert Headers(data + more, count, idx, offset)[1..] == Headers(g'.rest, count, idx + h.size, g'.offset);
      }
    }
  }

  /** Bytes that are not read can be left off. */
  lemma {:induction false} NextDrop(data: seq<byte>, value: int, shift: nat, k: nat)
    requires NextFrom(data, value, shift).Some? && k <= |NextFrom(data, value, shift).value.rest|
    ensures var r := NextFrom(data, value, shift).value;
      NextFrom(data[..|data| - k], value, shift) == Some(Read(r.value, r.rest[..|r.rest| - k]))
    decreases |data|
  {
    var b, d := data[0] as int, data[..|data| - k];
    assert d[1..] == data[1..][..|data| - 1 - k];
    if b >= 128 {
      NextDrop(data[1..], value + Part(b % 128, shift), shift + 7, k);
    }
  }

  lemma ReadIfDrop(present: bool, data: seq<byte>, k: nat)
    requires ReadIf(present, data).Some? && k <= |ReadIf(present, data).value.rest|
    ensures var r := ReadIf(present, data).value;
      k <= |data| && ReadIf(present, data[..|data| - k]) == Some(Read(r.value, r.rest[..|r.rest| - k]))
  {
    if present {
      NextDrop(data, 0, 0, k);
    }
  }

  lemma HeaderDrop(data: seq<byte>, k: nat)
    requires GroupHeader(data).Some? && k <= |GroupHeader(data).value.rest|
    ensures var r := GroupHeader(data).value; GroupHeader(data[..|data| - k]) == Some(HeaderRead(r.header, r.rest[..|r.rest| - k]))
  {
    hide Next, ReadIf, Has, SharedAddend;
    var size := Next(data).value;
    var flags := Next(size.rest).value;
    var delta := ReadIf(Has(flags.value, GROUPED_BY_OFFSET_DELTA), flags.rest).value;
    var info := ReadIf(Has(flags.value, GROUPED_BY_INFO), delta.rest).value;
    ReadIfDrop(SharedAddend(flags.value), info.rest, k);
    ReadIfDrop(Has(flags.value, GROUPED_BY_INFO), delta.rest, k);
    ReadIfDrop(Has(flags.value, GROUPED_BY_OFFSET_DELTA), flags.rest, k);
    ReadDrop(size.rest, k);
    ReadDrop(data, k);
  }

  lemma ReadDrop(data: seq<byte>, k: nat)
    requires Next(data).Some? && k <= |Next(data).value.rest|
    ensures var r := Next(data).value; k <= |data| && Next(data[..|data| - k]) == Some(Read(r.value, r.rest[..|r.rest| - k]))
  {
    NextDrop(data, 0, 0, k);
  }

  lemma ElementDrop(data: seq<byte>, h: Header, offset: int, k: nat)
    requires GroupElement(data, h, offset).Some? && k <= |GroupElement(data, h, offset).value.rest|
    ensures var e := GroupElement(data, h, offset).value;
      k <= |data| && GroupElement(data[..|data| - k], h, offset) == Some(Element(e.reloc, e.rest[..|e.rest| - k]))
  {
    hide ReadIf;
    var delta := ReadIf(!Has(h.flags, GROUPED_BY_OFFSET_DELTA), data).value;
    var info := ReadIf(!Has(h.flags, GROUPED_BY_INFO), delta.rest).value;
    ReadIfDrop(OwnAddend(h.flags), info.rest, k);
    ReadIfDrop(!Has(h.flags, GROUPED_BY_INFO), delta.rest, k);
    ReadIfDrop(!Has(h.flags, GROUPED_BY_OFFSET_DELTA), data, k);
  }

  lemma {:induction false} ElementsDrop(data: seq<byte>, h: Header, offset: int, n: nat, k: nat)
    requires var g := GroupElements(data, h, offset, n); g.complete && k <= |g.rest|
    ensures var g := GroupElements(data, h, offset, n);
      k <= |data| && GroupElements(data[..|data| - k], h, offset, n) == g.(rest := g.rest[..|g.rest| - k])
    decreases n
  {
    hide GroupElement;
    if n > 0 {
      var e := GroupElement(data, h, offset).value;
      ElementsDrop(e.rest, h, e.reloc.offset, n - 1, k);
      ElementDrop(data, h, offset, k);
    }
  }

  /** How many numbers each element of the group has. */
  function Width(h: Header): (k: nat)
    ensures k <= 3
  {
    (if Has(h.flags, GROUPED_BY_OFFSET_DELTA) then 0 else 1) + (if Has(h.flags, GROUPED_BY_INFO) then 0 else 1) +
    (if OwnAddend(h.flags) then 1 else 0)
  }

  function Few(k: nat): (r: seq<byte>)
    requires k <= 3
    ensures |r| == k
  {
    [0, 3, 0][..k]
  }

  /** As many small numbers as an element has, none of which reads as a header. */
  lemma FewRead(h: Header, offset: int)
    ensures GroupElement(Few(Width(h)), h, offset).Some? && GroupHeader(Few(Width(h))) == None
  {
    hide Next;
    NothingLeft();
    SmallRead(0, [], [0]);
    SmallRead(3, [], [3]);
    SmallRead(3, [0], [3, 0]);
    SmallRead(0, [3], [0, 3]);
    SmallRead(0, [3, 0], [0, 3, 0]);
    assert Few(0) == [] && Few(1) == [0] && Few(2) == [0, 3] && Few(3) == [0, 3, 0];
    assert Has(3, GROUPED_BY_OFFSET_DELTA) && Has(3, GROUPED_BY_INFO);
  }

  function Noughts(n: nat): seq<byte> { seq(n, _ => 0) }

  /** The noughts of `n` elements. */
  function Blank(h: Header, n: nat): seq<byte> {
    Noughts(n * Width(h))
  }

  lemma NoughtRead(present: bool, n: nat)
    requires present ==> n > 0
    ensures ReadIf(present, Noughts(n)) == Some(Read(0, Noughts(if present then n - 1 else n)))
  {
    if present {
      SmallRead(0, Noughts(n - 1), Noughts(n));
    }
  }

  lemma NoughtElement(h: Header, offset: int, n: nat)
    ensures if n >= Width(h) then GroupElement(Noughts(n), h, offset).Some? && GroupElement(Noughts(n), h, offset).value.rest == Noughts(n - Width(h))
            else n == 0 ==> GroupElement([], h, offset) == None
  {
    hide ReadIf;
    var a, b := !Has(h.flags, GROUPED_BY_OFFSET_DELTA), !Has(h.flags, GROUPED_BY_INFO);
    if n >= Width(h) {
      var n1 := if a then n - 1 else n;
      var n2 := if b then n1 - 1 else n1;
      NoughtRead(a, n);
      NoughtRead(b, n1);
      NoughtRead(OwnAddend(h.flags), n2);
    } else if n == 0 {
      NothingRead();
    }
  }

  lemma NothingRead()
    ensures ReadIf(true, []) == None && ReadIf(false, []) == Some(Read(0, []))
  {
  }

  /** Noughts for `n` elements of a group that has `m`. */
  lemma {:induction false} NoughtElements(h: Header, offset: int, n: nat, m: nat)
    requires n <= m
    ensures var g := GroupElements(Blank(h, n), h, offset, m); |g.relocs| >= n && g.rest == []
    decreases m
  {
    hide GroupElement, Width;
    OneElement(Blank(h, n), h, offset, m);
    NoughtElement(h, offset, n * Width(h));
    if m > 0 && GroupElement(Blank(h, n), h, offset).Some? {
      var e := GroupElement(Blank(h, n), h, offset).value;
      if n > 0 {
        assert n * Width(h) - Width(h) == (n - 1) * Width(h);
        NoughtElements(h, e.reloc.offset, n - 1, m - 1);
      } else {
        assert Noughts(0) == [] && e.rest == [];
        NoughtElements(h, e.reloc.offset, 0, m - 1);
      }
    }
  }

  /** The first `m` bytes and `more` part the decoders, and have no other headers than those bytes. */
  ghost predicate Parts(data: seq<byte>, count: int, idx: int, offset: int, m: nat, more: seq<byte>) {
    && m <= |data| && Headers(data[..m] + more, count, idx, offset) == Headers(data[..m], count, idx, offset)
    && !Alike(data[..m] + more, count, idx, offset)
  }

  lemma HeadersStep(data: seq<byte>, count: int, idx: int, offset: int)
    ensures Headers(data, count, idx, offset) ==
      if idx >= count then []
      else match GroupHeader(data)
        case None => []
        case Some(HeaderRead(h, rest)) =>
          var g := GroupElements(rest, h, offset, Size(h));
          [h] + if g.complete then Headers(g.rest, count, (idx + Size(h)) % WORD, g.offset) else []
  {
  }

  lemma NoHeaders(count: int, idx: int, offset: int)
    ensures Headers([], count, idx, offset) == [] && GroupHeader([]) == None
  {
    NothingLeft();
  }

  /** Right behind the header of an empty group. */
  lemma EmptyParts(data: seq<byte>, count: int, idx: int, offset: int)
    requires 0 <= idx < count < WORD && GroupHeader(data).Some? && GroupHeader(data).value.header.size <= 0
    ensures Parts(data, count, idx, offset, |data| - |GroupHeader(data).value.rest|, Few(Width(GroupHeader(data).value.header)))
  {
    hide GroupHeader, GroupElement, GroupElements, Width, Few, Headers;
    var HeaderRead(h, rest) := GroupHeader(data).value;
    var d, more := data[..|data| - |rest|], Few(Width(h));
    HeaderDrop(data, |rest|);
    HeaderMore(d, more);
    assert rest[..0] + more == more;
    FewRead(h, offset);
    OneElement([], h, offset, 0);
    OneElement(more, h, offset, 0);
    OneElement(more, h, offset, count - idx);
    HeadersStep(d, count, idx, offset);
    HeadersStep(d + more, count, idx, offset);
    HeadersStep(more, count, idx, offset);
    NoHeaders(count, idx, offset);
    GroupsStep(more, count, idx, offset);
  }

  /** Right behind the header of a group that is too long. */
  lemma OverlongParts(data: seq<byte>, count: int, idx: int, offset: int)
    requires 0 <= idx < count < WORD && GroupHeader(data).Some? && count - idx < GroupHeader(data).value.header.size
    ensures var r := GroupHeader(data).value;
      Parts(data, count, idx, offset, |data| - |r.rest|, Blank(r.header, count - idx + 1))
  {
    hide GroupHeader, GroupElement, GroupElements, Width, Noughts, Blank, Headers;
    var HeaderRead(h, rest) := GroupHeader(data).value;
    var d, more := data[..|data| - |rest|], Blank(h, count - idx + 1);
    HeaderDrop(data, |rest|);
    HeaderMore(d, more);
    assert rest[..0] + more == more && rest[..0] == [];
    NoughtElements(h, offset, count - idx + 1, h.size);
    EmptyElements(h, offset, h.size);
    HeadersStep(d, count, idx, offset);
    HeadersStep(d + more, count, idx, offset);
    var g, g' := GroupElements([], h, offset, h.size), GroupElements(more, h, offset, h.size);
    NoHeaders(count, (idx + h.size) % WORD, g.offset);
    NoHeaders(count, (idx + h.size) % WORD, g'.offset);
  }

  lemma {:induction false} EmptyElements(h: Header, offset: int, n: nat)
    ensures GroupElements([], h, offset, n).rest == []
    decreases n
  {
    if n > 0 && GroupElement([], h, offset).Some? {
      EmptyElements(h, GroupElement([], h, offset).value.reloc.offset, n - 1);
    }
  }

  /** Behind a regular group. */
  lemma PartsBehind(data: seq<byte>, count: int, idx: int, offset: int, m: nat, more: seq<byte>)
    requires 0 <= idx < count < WORD && GroupHeader(data).Some?
    requires var HeaderRead(h, rest) := GroupHeader(data).value; var g := GroupElements(rest, h, offset, Size(h));
      0 < h.size <= count - idx && g.complete && Parts(g.rest, count, idx + h.size, g.offset, m, more)
    ensures var HeaderRead(h, rest) := GroupHeader(data).value; var g := GroupElements(rest, h, offset, Size(h));
      Parts(data, count, idx, offset, |data| - |g.rest| + m, more)
  {
    hide GroupHeader, GroupElement, GroupElements, Headers;
    var HeaderRead(h, rest) := GroupHeader(data).value;
    var g := GroupElements(rest, h, offset, h.size);
    var k := |g.rest| - m;
    HeaderDrop(data, k);
    ElementsDrop(rest, h, offset, h.size, k);
    var d, r := data[..|data| - k], rest[..|rest| - k];
    HeaderMore(d, more);
    ElementsMore(r, h, offset, h.size, more);
    HeadersStep(d, count, idx, offset);
    HeadersStep(d + more, count, idx, offset);
  }

  lemma {:induction false} IrregularParts(data: seq<byte>, count: int, idx: int, offset: int) returns (m: nat, more: seq<byte>)
    requires 0 <= idx && count < WORD && !Regular(data, count, idx, offset)
    ensures Parts(data, count, idx, offset, m, more)
    decreases |data|
  {
    hide GroupHeader, GroupElements, Parts, Headers, Width, Blank, Few;
    var HeaderRead(h, rest) := GroupHeader(data).value;
    if h.size <= 0 {
      EmptyParts(data, count, idx, offset);
      m, more := |data| - |rest|, Few(Width(h));
    } else if count - idx < h.size {
      OverlongParts(data, count, idx, offset);
      m, more := |data| - |rest|, Blank(h, count - idx + 1);
    } else {
      var g := GroupElements(rest, h, offset, h.size);
      m, more := IrregularParts(g.rest, count, idx + h.size, g.offset);
      PartsBehind(data, count, idx, offset, m, more);
      m := |data| - |g.rest| + m;
    }
  }

  lemma StreamParts(data: seq<byte>) returns (n: nat, more: seq<byte>)
    requires !RegularStream(data)
    ensures PartedBy(data, n, more)
  {
    hide Next, Regular, Headers, Alike, IterRelocs, Relocs;
    var count := Next(data).value;
    var offset := Next(count.rest).value;
    NextIsWord(data, 0, 0);
    NextIsCount(data);
    var m;
    m, more := IrregularParts(offset.rest, count.value, 0, offset.value);
    var k := |offset.rest| - m;
    ReadDrop(count.rest, k);
    ReadDrop(data, k);
    n := |data| - k;
    ReadMore(data[..n], more);
    ReadMore(count.rest[..|count.rest| - k], more);
    AgreeExactly(data[..n] + more);
  }

  lemma NextIsCount(data: seq<byte>)
    ensures Next(data) == NextFrom(data, 0, 0)
  {
  }

  lemma StreamSame(data: seq<byte>, more: seq<byte>)
    requires RegularStream(data) && AllHeaders(data + more) == AllHeaders(data)
    ensures RegularStream(data + more)
  {
    hide Regular, Headers, Next;
    NextIsWord(data + more, 0, 0);
    NextIsCount(data + more);
    if Next(data).Some? {
      var count := Next(data).value;
      ReadMore(data, more);
      if Next(count.rest).Some? {
        var offset := Next(count.rest).value;
        ReadMore(count.rest, more);
        SameHeaders(offset.rest, more, count.value, 0, offset.value);
        return;
      }
    }
    if Next(data + more).Some? && Next(Next(data + more).value.rest).Some? {
      var count := Next(data + more).value;
      var offset := Next(count.rest).value;
      NoGroupRegular(offset.rest, count.value, 0, offset.value);
    }
  }

  lemma NoGroupRegular(data: seq<byte>, count: int, idx: int, offset: int)
    requires Headers(data, count, idx, offset) == []
    ensures Regular(data, count, idx, offset)
  {
  }

  /** For all bytes: the decoders agree at every point of the stream, whatever follows there short of
      another header, if and only if no group so far is empty or longer than what is left. */
  lemma AgreeWhateverFollows(data: seq<byte>)
    ensures RegularStream(data) <==> forall n: nat, more :: !PartedBy(data, n, more)
  {
    hide RegularStream, AllHeaders, IterRelocs, Relocs;
    if RegularStream(data) {
      forall n: nat, more
        ensures !PartedBy(data, n, more)
      {
        if n <= |data| && AllHeaders(data[..n] + more) == AllHeaders(data[..n]) {
          assert data[..n] + data[n..] == data;
          StreamCut(data[..n], data[n..]);
          StreamSame(data[..n], more);
          DecodersAgree(data[..n] + more);
        }
      }
    } else {
      var n, more := StreamParts(data);
    }
  }

  // ----- packing -----

  function ToSigned(w: int): int {
    if w < WORD / 2 then w else w - WORD
  }

  predicate Word(w: int) {
    0 <= w < WORD
  }

  /** A word in front of `tail`. */
  function Emit(w: int, tail: seq<byte>): seq<byte> {
    Encode(ToSigned(w)) + tail
  }

  function EmitIf(present: bool, w: int, tail: seq<byte>): seq<byte> {
    if present then Emit(w, tail) else tail
  }

  lemma EmitRead(w: int, tail: seq<byte>)
    requires Word(w)
    ensures Next(Emit(w, tail)) == Some(Read(w, tail))
  {
    hide Encode, Next;
    SignedWord(w);
    RoundTrip(ToSigned(w), tail);
  }

  lemma SignedWord(w: int)
    requires Word(w)
    ensures Long(ToSigned(w)) && ToWord(ToSigned(w)) == w
  {
    ModOf(if w < WORD / 2 then 0 else -1, w);
  }

  lemma EmitIfRead(present: bool, w: int, tail: seq<byte>)
    requires Word(w)
    ensures ReadIf(present, EmitIf(present, w, tail)) == Some(Read(if present then w else 0, tail))
  {
    if present {
      EmitRead(w, tail);
    }
  }

  /** A group to be packed: what its relocations share, and the relocations with their addends. */
  datatype Packed = Packed(flags: int, delta: int, info: int, addend: int, relocs: seq<Reloc>, addends: seq<int>)

  function HeaderOf(g: Packed): Header {
    Header(|g.relocs|, g.flags,
           if Has(g.flags, GROUPED_BY_OFFSET_DELTA) then g.delta else 0,
           if Has(g.flags, GROUPED_BY_INFO) then g.info else 0)
  }

  function PackElements(g: Packed, i: nat, offset: int, tail: seq<byte>): seq<byte>
    requires i <= |g.relocs| == |g.addends|
    decreases |g.relocs| - i
  {
    if i == |g.relocs| then tail
    else
      EmitIf(!Has(g.flags, GROUPED_BY_OFFSET_DELTA), (g.relocs[i].offset - offset) % WORD,
             EmitIf(!Has(g.flags, GROUPED_BY_INFO), g.relocs[i].info,
                    EmitIf(OwnAddend(g.flags), g.addends[i], PackElements(g, i + 1, g.relocs[i].offset, tail))))
  }

  function PackGroup(g: Packed, offset: int, tail: seq<byte>): seq<byte>
    requires |g.relocs| == |g.addends|
  {
    Emit(|g.relocs|, Emit(g.flags,
      EmitIf(Has(g.flags, GROUPED_BY_OFFSET_DELTA), g.delta,
             EmitIf(Has(g.flags, GROUPED_BY_INFO), g.info,
                    EmitIf(SharedAddend(g.flags), g.addend, PackElements(g, 0, offset, tail))))))
  }

  /** The group has relocations, all of words, and they share what the flags say they share. */
  predicate Packable(g: Packed, offset: int) {
    && 0 < |g.relocs| == |g.addends| < WORD && Word(g.flags) && Word(g.delta) && Word(g.info) && Word(g.addend) && Word(offset)
    && forall i :: 0 <= i < |g.relocs| ==> Shares(g, i, Before(g, i, offset))
  }

  function Before(g: Packed, i: nat, offset: int): int
    requires i <= |g.relocs|
  {
    if i == 0 then offset else g.relocs[i - 1].offset
  }

  predicate Shares(g: Packed, i: nat, before: int)
    requires i < |g.relocs| == |g.addends|
  {
    && Word(g.relocs[i].offset) && Word(g.relocs[i].info) && Word(g.addends[i])
    && (Has(g.flags, GROUPED_BY_INFO) ==> g.relocs[i].info == g.info)
    && (Has(g.flags, GROUPED_BY_OFFSET_DELTA) ==> g.relocs[i].offset == (before + g.delta) % WORD)
  }

  function LastOffset(g: Packed, offset: int): int {
    if g.relocs == [] then offset else g.relocs[|g.relocs| - 1].offset
  }

  function PackGroups(groups: seq<Packed>, offset: int): seq<byte>
    requires AllPackable(groups, offset)
  {
    if groups == [] then [] else PackGroup(groups[0], offset, PackGroups(groups[1..], LastOffset(groups[0], offset)))
  }

  predicate AllPackable(groups: seq<Packed>, offset: int) {
    groups != [] ==> Packable(groups[0], offset) && AllPackable(groups[1..], LastOffset(groups[0], offset))
  }

  function Unpacked(groups: seq<Packed>): seq<Reloc> {
    if groups == [] then [] else groups[0].relocs + Unpacked(groups[1..])
  }

  /** The whole stream; it starts with the number of relocations and the first offset. */
  function Pack(groups: seq<Packed>, offset: int): seq<byte>
    requires AllPackable(groups, offset)
  {
    Emit(|Unpacked(groups)|, Emit(offset, PackGroups(groups, offset)))
  }

  lemma SteppedOffset(offset: int, next: int)
    requires Word(offset) && Word(next)
    ensures (offset + (next - offset) % WORD) % WORD == next
  {
  }

  lemma {:induction false} ElementsRead(g: Packed, i: nat, offset0: int, tail: seq<byte>)
    requires Packable(g, offset0) && i <= |g.relocs|
    ensures var offset := Before(g, i, offset0);
      GroupElements(PackElements(g, i, offset, tail), HeaderOf(g), offset, |g.relocs| - i)
        == Group(g.relocs[i..], true, LastOffset(g, offset0), tail)
    decreases |g.relocs| - i
  {
    hide ReadIf, EmitIf, Has;
    if i < |g.relocs| {
      var offset := Before(g, i, offset0);
      var r := g.relocs[i];
      assert Shares(g, i, offset) && (i > 0 ==> Shares(g, i - 1, Before(g, i - 1, offset0)));
      var rest := PackElements(g, i + 1, r.offset, tail);
      var third := EmitIf(OwnAddend(g.flags), g.addends[i], rest);
      var second := EmitIf(!Has(g.flags, GROUPED_BY_INFO), r.info, third);
      EmitIfRead(!Has(g.flags, GROUPED_BY_OFFSET_DELTA), (r.offset - offset) % WORD, second);
      EmitIfRead(!Has(g.flags, GROUPED_BY_INFO), r.info, third);
      EmitIfRead(OwnAddend(g.flags), g.addends[i], rest);
      SteppedOffset(offset, r.offset);
      assert PackElements(g, i, offset, tail) == EmitIf(!Has(g.flags, GROUPED_BY_OFFSET_DELTA), (r.offset - offset) % WORD, second);
      assert GroupElement(PackElements(g, i, offset, tail), HeaderOf(g), offset) == Some(Element(r, rest));
      ElementsRead(g, i + 1, offset0, tail);
      assert [r] + g.relocs[i + 1..] == g.relocs[i..];
    }
  }

  lemma HeaderIsRead(g: Packed, offset: int, tail: seq<byte>)
    requires Packable(g, offset)
    ensures GroupHeader(PackGroup(g, offset, tail)) == Some(HeaderRead(HeaderOf(g), PackElements(g, 0, offset, tail)))
  {
    hide Next, Emit, ReadIf, EmitIf, PackElements, Has;
    var rest := PackElements(g, 0, offset, tail);
    var fifth := EmitIf(SharedAddend(g.flags), g.addend, rest);
    var fourth := EmitIf(Has(g.flags, GROUPED_BY_INFO), g.info, fifth);
    var third := EmitIf(Has(g.flags, GROUPED_BY_OFFSET_DELTA), g.delta, fourth);
    EmitRead(|g.relocs|, Emit(g.flags, third));
    EmitRead(g.flags, third);
    EmitIfRead(Has(g.flags, GROUPED_BY_OFFSET_DELTA), g.delta, fourth);
    EmitIfRead(Has(g.flags, GROUPED_BY_INFO), g.info, fifth);
    EmitIfRead(SharedAddend(g.flags), g.addend, rest);
  }

  lemma {:induction false} GroupsRead(groups: seq<Packed>, offset: int, count: int, idx: int)
    requires AllPackable(groups, offset) && 0 <= idx && count == idx + |Unpacked(groups)| < WORD
    ensures Groups(PackGroups(groups, offset), count, idx, offset) == Unpacked(groups)
    ensures Regular(PackGroups(groups, offset), count, idx, offset)
  {
    hide GroupHeader, GroupElements, PackGroup, PackElements;
    if groups != [] {
      var g, last := groups[0], LastOffset(groups[0], offset);
      var tail := PackGroups(groups[1..], last);
      HeaderIsRead(g, offset, tail);
      ElementsRead(g, 0, offset, tail);
      assert g.relocs[0..] == g.relocs;
      GroupsRead(groups[1..], last, count, idx + |g.relocs|);
    }
  }

  /** A packed stream is regular and delivers exactly what was packed. */
  lemma UnpackPacked(groups: seq<Packed>, offset: int)
    requires AllPackable(groups, offset) && Word(offset) && |Unpacked(groups)| < WORD
    ensures Relocs(Pack(groups, offset)) == Unpacked(groups) && RegularStream(Pack(groups, offset))
  {
    hide Next, Emit, Groups, Regular, PackGroups;
    var data := PackGroups(groups, offset);
    EmitRead(|Unpacked(groups)|, Emit(offset, data));
    EmitRead(offset, data);
    GroupsRead(groups, offset, |Unpacked(groups)|, 0);
  }

  /** Of every packed stream and of every truncation of one, the two decoders deliver the same
      relocations: a prefix of what was packed, and all of it if nothing is cut off. */
  lemma TruncationAgrees(groups: seq<Packed>, offset: int, n: nat)
    requires AllPackable(groups, offset) && Word(offset) && |Unpacked(groups)| < WORD && n <= |Pack(groups, offset)|
    ensures var cut := Pack(groups, offset)[..n];
      IterRelocs(cut) == Relocs(cut) <= Unpacked(groups) && (n == |Pack(groups, offset)| ==> Relocs(cut) == Unpacked(groups))
  {
    hide IterRelocs, Relocs, RegularStream, Pack, Unpacked, AllPackable;
    var data := Pack(groups, offset);
    UnpackPacked(groups, offset);
    assert data[..n] + data[n..] == data;
    StreamCut(data[..n], data[n..]);
    DecodersAgree(data[..n]);
    if n == |data| {
      assert data[..n] == data;
    }
  }

  /** Irregular groups, which no packer writes, can part them. Behind an empty one bytehook reads the next
      group, and xhook an element. */
  lemma ZeroGroupDiffers()
    ensures var data: seq<byte> := [1, 0, 0, 3, 5, 7]; Relocs(data) == [] && IterRelocs(data) == [Reloc(5, 7)]
  {
    hide Next;
    var d0: seq<byte>, d1: seq<byte>, d2: seq<byte> := [1, 0, 0, 3, 5, 7], [0, 0, 3, 5, 7], [0, 3, 5, 7];
    var d3: seq<byte>, d4: seq<byte>, d5: seq<byte> := [3, 5, 7], [5, 7], [7];
    SmallRead(1, d1, d0);
    SmallRead(0, d2, d1);
    SmallRead(0, d3, d2);
    SmallRead(3, d4, d3);
    SmallRead(5, d5, d4);
    SmallRead(7, [], d5);
    NothingLeft();
    var h := Header(0, 3, 5, 7);
    assert GroupHeader(d2) == Some(HeaderRead(h, []));
    assert GroupHeader([]) == None;
    assert Groups(d2, 1, 0, 0) == [] + Groups([], 1, 0, 0);
    var it := Iter(d2, 1, 0, Header(0, 0, 0, 0), 0, 0);
    assert IterNext(it) == Some((Iter([], 1, 1, h, 1, 5), Reloc(5, 7)));
    assert IterAll(Iter([], 1, 1, h, 1, 5)) == [];
  }

  /** Of a group with more relocations than are left, bytehook delivers all, and xhook those that are left. */
  lemma OverlongGroupDiffers()
    ensures var data: seq<byte> := [1, 0, 2, 3, 5, 7];
      Relocs(data) == [Reloc(5, 7), Reloc(10, 7)] && IterRelocs(data) == [Reloc(5, 7)]
  {
    hide Next;
    var d0: seq<byte>, d1: seq<byte>, d2: seq<byte> := [1, 0, 2, 3, 5, 7], [0, 2, 3, 5, 7], [2, 3, 5, 7];
    var d3: seq<byte>, d4: seq<byte>, d5: seq<byte> := [3, 5, 7], [5, 7], [7];
    SmallRead(1, d1, d0);
    SmallRead(0, d2, d1);
    SmallRead(2, d3, d2);
    SmallRead(3, d4, d3);
    SmallRead(5, d5, d4);
    SmallRead(7, [], d5);
    NothingLeft();
    var h := Header(2, 3, 5, 7);
    assert GroupHeader(d2) == Some(HeaderRead(h, []));
    assert GroupElement([], h, 0) == Some(Element(Reloc(5, 7), []));
    assert GroupElement([], h, 5) == Some(Element(Reloc(10, 7), []));
    assert GroupElements([], h, 10, 0) == Group([], true, 10, []);
    assert GroupElements([], h, 5, 1).relocs == [Reloc(10, 7)];
    assert GroupElements([], h, 0, 2).relocs == [Reloc(5, 7), Reloc(10, 7)];
    assert Groups([], 1, 2, 10) == [];
    var it := Iter(d2, 1, 0, Header(0, 0, 0, 0), 0, 0);
    assert IterNext(it) == Some((Iter([], 1, 1, h, 1, 5), Reloc(5, 7)));
    assert IterAll(Iter([], 1, 1, h, 1, 5)) == [];
  }

  lemma SmallRead(b: byte, tail: seq<byte>, data: seq<byte>)
    requires b < 64 && data == [b] + tail
    ensures Next(data) == Some(Read(b as int, tail))
  {
    assert data[1..] == tail;
    assert Part(b as int % 128, 0) == b as int;
  }

  lemma NothingLeft()
    ensures Next([]) == None
  {
  }

  // ----- the decoders as objects -----

  method DecodeIf(decoder: Decoder, present: bool) returns (r: Option<int>)
    requires decoder.Valid()
    modifies decoder
    ensures decoder.Valid()
    ensures match ReadIf(present, old(decoder.Left()))
      case None => r == None
      case Some(read) => r == Some(read.value) && decoder.Left() == read.rest
  {
    if present {
      r := decoder.DecodeNext();
    } else {
      r := Some(0);
    }
  }

  /** Reads the fields of a group, as both decoders do, up to the first that is missing. */
  method ReadHeader(decoder: Decoder) returns (r: Option<Header>)
    requires decoder.Valid()
    modifies decoder
    ensures decoder.Valid()
    ensures match GroupHeader(old(decoder.Left()))
      case None => r == None
      case Some(h) => r == Some(h.header) && decoder.Left() == h.rest && 0 <= h.header.size < WORD
  {
    hide Next, ReadIf, Has, SharedAddend;
    var size := decoder.DecodeNext();
    if size == None { return None; }
    var flags := decoder.DecodeNext();
    if flags == None { return None; }
    var delta := DecodeIf(decoder, Has(flags.value, GROUPED_BY_OFFSET_DELTA));
    if delta == None { return None; }
    var info := DecodeIf(decoder, Has(flags.value, GROUPED_BY_INFO));
    if info == None { return None; }
    var addend := DecodeIf(decoder, SharedAddend(flags.value));
    if addend == None { return None; }
    return Some(Header(size.value, flags.value, delta.value, info.value));
  }

  /** Reads one relocation of a group. */
  method ReadElement(decoder: Decoder, h: Header, offset: int) returns (r: Option<Reloc>)
    requires decoder.Valid()
    modifies decoder
    ensures decoder.Valid()
    ensures match GroupElement(old(decoder.Left()), h, offset)
      case None => r == None
      case Some(e) => r == Some(e.reloc) && decoder.Left() == e.rest
  {
    hide ReadIf, Has, OwnAddend;
    var delta := DecodeIf(decoder, !Has(h.flags, GROUPED_BY_OFFSET_DELTA));
    if delta == None { return None; }
    var info := DecodeIf(decoder, !Has(h.flags, GROUPED_BY_INFO));
    if info == None { return None; }
    var addend := DecodeIf(decoder, OwnAddend(h.flags));
    if addend == None { return None; }
    var step := if Has(h.flags, GROUPED_BY_OFFSET_DELTA) then h.delta else delta.value;
    return Some(Reloc((offset + step) % WORD, if Has(h.flags, GROUPED_BY_INFO) then h.info else info.value));
  }

  lemma UntilStops(a: seq<Reloc>, r: Reloc, b: seq<Reloc>, more: Reloc -> bool)
    requires GoesOn(a, more)
    ensures !more(r) ==> Until(a + ([r] + b), more) == a + [r]
    ensures more(r) ==> GoesOn(a + [r], more)
  {
    UntilConcat(a, [r] + b, more);
    assert ([r] + b)[1..] == b;
    if more(r) {
      GoesOnAppend(a, r, more);
    }
  }

  lemma {:induction false} GoesOnAppend(a: seq<Reloc>, r: Reloc, more: Reloc -> bool)
    requires GoesOn(a, more) && more(r)
    ensures GoesOn(a + [r], more)
  {
    if a != [] {
      GoesOnAppend(a[1..], r, more);
      assert (a + [r])[1..] == a[1..] + [r];
    }
  }

  /** The inner loop: one callback per relocation of the group. */
  method IterateGroup(decoder: Decoder, h: Header, offset: int, more: Reloc -> bool)
    returns (got: seq<Reloc>, finished: bool, last: int)
    requires decoder.Valid() && h.size >= 0
    modifies decoder
    ensures decoder.Valid()
    ensures var g := GroupElements(old(decoder.Left()), h, offset, h.size);
      && got == Until(g.relocs, more) && (finished <==> g.complete && GoesOn(g.relocs, more))
      && (finished ==> got == g.relocs && last == g.offset && decoder.Left() == g.rest)
  {
    hide GroupElement, GroupElements, Until, GoesOn;
    got, last := [], offset;
    ghost var g := GroupElements(decoder.Left(), h, offset, h.size);
    GoesOnEmpty(more);
    for i := 0 to h.size
      invariant decoder.Valid() && GoesOn(got, more)
      invariant g == Ahead(got, GroupElements(decoder.Left(), h, last, h.size - i))
    {
      OneElement(decoder.Left(), h, last, h.size - i);
      UntilConcat(got, [], more);
      var reloc := ReadElement(decoder, h, last);
      if reloc == None {
        return got, false, last;
      }
      ghost var rest := GroupElements(decoder.Left(), h, reloc.value.offset, h.size - i - 1);
      Assoc(got, [reloc.value], rest.relocs);
      UntilStops(got, reloc.value, rest.relocs, more);
      StopsFor(got, reloc.value, rest.relocs, more);
      last := reloc.value.offset;
      got := got + [reloc.value];
      if !more(reloc.value) {
        return got, false, last;
      }
    }
    OneElement(decoder.Left(), h, last, 0);
    UntilConcat(got, [], more);
    finished := true;
  }

  function Ahead(got: seq<Reloc>, g: Group): Group {
    g.(relocs := got + g.relocs)
  }

  lemma GoesOnEmpty(more: Reloc -> bool)
    ensures GoesOn([], more) && Until([], more) == []
  {
  }

  lemma {:induction false} StopsFor(a: seq<Reloc>, r: Reloc, b: seq<Reloc>, more: Reloc -> bool)
    ensures !more(r) ==> !GoesOn(a + ([r] + b), more)
  {
    if a == [] {
      assert a + ([r] + b) == [r] + b;
    } else {
      StopsFor(a[1..], r, b, more);
      assert (a + ([r] + b))[1..] == a[1..] + ([r] + b);
    }
  }

  lemma GroupsStep(data: seq<byte>, count: int, idx: int, offset: int)
    ensures Groups(data, count, idx, offset) ==
      if idx >= count then []
      else match GroupHeader(data)
        case None => []
        case Some(HeaderRead(h, rest)) =>
          var g := GroupElements(rest, h, offset, Size(h));
          g.relocs + if g.complete then Groups(g.rest, count, (idx + Size(h)) % WORD, g.offset) else []
  {
  }

  /** bh_elf_iterate_aps2; `more` is what the callback returns. It terminates on all byte strings. */
  method IterateAps2(data: seq<byte>, more: Reloc -> bool) returns (relocs: seq<Reloc>)
    ensures relocs == Until(Relocs(data), more)
  {
    hide Next, Groups, GroupHeader, GroupElements, Until, GoesOn;
    var decoder := new Decoder(data);
    assert decoder.Left() == data;
    relocs := [];
    GoesOnEmpty(more);
    var numRelocs := decoder.DecodeNext();
    if numRelocs == None { return; }
    var offset := decoder.DecodeNext();
    if offset == None { return; }
    var idx, last := 0, offset.value;
    while idx < numRelocs.value
      invariant decoder.Valid() && 0 <= idx && GoesOn(relocs, more)
      invariant Relocs(data) == relocs + Groups(decoder.Left(), numRelocs.value, idx, last)
      decreases |decoder.Left()|
    {
      GroupsStep(decoder.Left(), numRelocs.value, idx, last);
      UntilConcat(relocs, [], more);
      var h := ReadHeader(decoder);
      if h == None { return; }
      ghost var g := GroupElements(decoder.Left(), h.value, last, h.value.size);
      ghost var tail := if g.complete then Groups(g.rest, numRelocs.value, (idx + h.value.size) % WORD, g.offset) else [];
      var got, finished;
      got, finished, last := IterateGroup(decoder, h.value, last, more);
      UntilConcat(relocs, g.relocs + tail, more);
      UntilConcat(g.relocs, tail, more);
      Assoc(relocs, g.relocs, tail);
      GoesOnConcat(relocs, g.relocs, more);
      relocs := relocs + got;
      if !finished { return; }
      idx := (idx + h.value.size) % WORD;
    }
    GroupsStep(decoder.Left(), numRelocs.value, idx, last);
    UntilConcat(relocs, [], more);
  }

  lemma {:induction false} GoesOnConcat(a: seq<Reloc>, b: seq<Reloc>, more: Reloc -> bool)
    requires GoesOn(a, more)
    ensures GoesOn(a + b, more) <==> GoesOn(b, more)
  {
    if a == [] {
      assert a + b == b;
    } else {
      GoesOnConcat(a[1..], b, more);
      assert (a + b)[1..] == a[1..] + b;
    }
  }

  lemma HeaderFields(data: seq<byte>)
    requires GroupHeader(data).Some?
    ensures var h := GroupHeader(data).value.header;
      (!Has(h.flags, GROUPED_BY_OFFSET_DELTA) ==> h.delta == 0) && (!Has(h.flags, GROUPED_BY_INFO) ==> h.info == 0)
  {
  }

  lemma ElementInfo(h: Header, offset: int, r: Reloc, data: seq<byte>)
    requires GroupElement(data, h, offset).Some? && GroupElement(data, h, offset).value.reloc == r
    ensures Has(h.flags, GROUPED_BY_INFO) ==> r.info == h.info
  {
  }

  class PackedIterator {
    const decoder: Decoder
    var relocationCount: int
    var groupSize: int
    var groupFlags: int
    var groupROffsetDelta: int
    var relocationIndex: int
    var relocationGroupIndex: int
    var rOffset: int
    var rInfo: int

    predicate Valid()
      reads this, decoder
    {
      decoder.Valid()
    }

    /** The fields of the current group that count; the others are left over. */
    function GroupFields(): Header
      reads this
    {
      Header(groupSize, groupFlags,
             if Has(groupFlags, GROUPED_BY_OFFSET_DELTA) then groupROffsetDelta else 0,
             if Has(groupFlags, GROUPED_BY_INFO) then rInfo else 0)
    }

    function State(): Iter
      requires Valid()
      reads this, decoder
    {
      Iter(decoder.Left(), relocationCount, relocationIndex, GroupFields(), relocationGroupIndex, rOffset)
    }

    constructor (data: seq<byte>)
      ensures Valid() && fresh(decoder) && decoder.Left() == data
      ensures State() == Iter(data, 0, 0, Header(0, 0, 0, 0), 0, 0)
    {
      decoder := new Decoder(data);
      relocationCount, groupSize, groupFlags, groupROffsetDelta := 0, 0, 0, 0;
      relocationIndex, relocationGroupIndex, rOffset, rInfo := 0, 0, 0, 0;
    }

    /** xh_elf_packed_reloc_iterator_init, without the memset. */
    method Init() returns (ok: bool)
      requires Valid() && State() == Iter(decoder.Left(), 0, 0, Header(0, 0, 0, 0), 0, 0)
      modifies this, decoder
      ensures Valid()
      ensures match IterInit(old(decoder.Left()))
        case None => !ok
        case Some(it) => ok && State() == it
    {
      hide Next;
      var count := decoder.DecodeNext();
      if count == None { return false; }
      var offset := decoder.DecodeNext();
      if offset == None { return false; }
      relocationCount, rOffset := count.value, offset.value;
      return true;
    }

    /** xh_elf_packed_reloc_iterator_read_group_fields. */
    method ReadGroupFields() returns (ok: bool)
      requires Valid()
      modifies this`groupSize, this`groupFlags, this`groupROffsetDelta, this`rInfo, this`relocationGroupIndex, decoder
      ensures Valid()
      ensures match GroupHeader(old(decoder.Left()))
        case None => !ok
        case Some(h) => ok && GroupFields() == h.header && decoder.Left() == h.rest && relocationGroupIndex == 0
    {
      hide GroupHeader, Has;
      ghost var left := decoder.Left();
      var header := ReadHeader(decoder);
      if header == None {
        return false;
      }
      HeaderFields(left);
      var h := header.value;
      groupSize, groupFlags, relocationGroupIndex := h.size, h.flags, 0;
      if Has(h.flags, GROUPED_BY_OFFSET_DELTA) {
        groupROffsetDelta := h.delta;
      }
      if Has(h.flags, GROUPED_BY_INFO) {
        rInfo := h.info;
      }
      return true;
    }

    /** The next relocation; None where the source returns NULL. */
    method NextReloc() returns (r: Option<Reloc>)
      requires Valid()
      modifies this, decoder
      ensures Valid()
      ensures match IterNext(old(State()))
        case None => r == None
        case Some((it, reloc)) => r == Some(reloc) && State() == it
    {
      hide GroupHeader, GroupElement, Has;
      if relocationIndex >= relocationCount {
        return None;
      }
      if relocationGroupIndex == groupSize {
        var ok := ReadGroupFields();
        if !ok {
          return None;
        }
      }
      var h := GroupFields();
      ghost var before := decoder.Left();
      r := ReadElement(decoder, h, rOffset);
      if r == None {
        return None;
      }
      ElementInfo(h, rOffset, r.value, before);
      rOffset, rInfo := r.value.offset, r.value.info;
      relocationIndex, relocationGroupIndex := relocationIndex + 1, relocationGroupIndex + 1;
    }
  }

  /** The loop that runs xhook's iterator until it returns NULL. */
  method IteratePacked(data: seq<byte>) returns (relocs: seq<Reloc>)
    ensures relocs == IterRelocs(data)
  {
    hide IterNext, Next;
    relocs := [];
    var packed := new PackedIterator(data);
    var ok := packed.Init();
    if !ok {
      return;
    }
    while true
      invariant packed.Valid() && fresh(packed) && fresh(packed.decoder)
      invariant IterRelocs(data) == relocs + IterAll(packed.State())
      decreases packed.State().count - packed.State().index
    {
      ghost var it := packed.State();
      IterStep(it);
      var r := packed.NextReloc();
      if r == None {
        return;
      }
      Assoc(relocs, [r.value], IterAll(packed.State()));
      relocs := relocs + [r.value];
    }
  }
}

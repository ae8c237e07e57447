/** Symbol lookup through .gnu.hash and .hash, as bytehook, xdl and xhook do it. Symbol names are
    the bytes before the terminating NUL. */
module HashLookup {
  import opened Basics

  newtype octet = x: int | 0 < x < 256 witness 1
  type Name = seq<octet>

  /** `defined` says that st_shndx is not SHN_UNDEF, which both libraries take for an export. */
  datatype Sym = Sym(name: Name, kind: int, defined: bool)

  const U32 := 0x1_0000_0000

  /** The bits of a bloom word: size_t has 64. */
  const CLASS_BITS := 64

  // ----- the hash functions -----

  function GnuHashFrom(h: int, name: Name): (r: int)
    requires 0 <= h < U32
    ensures 0 <= r < U32
    decreases |name|
  {
    if name == [] then h else GnuHashFrom((h + h * 32 + name[0] as int) % U32, name[1..])
  }

  function GnuHash(name: Name): (r: int)
    ensures 0 <= r < U32
  {
    GnuHashFrom(5381, name)
  }

  function Xor4(a: int, b: int): (r: int)
    requires 0 <= a < 16 && 0 <= b < 16
    ensures 0 <= r < 16
  {
    ((a as bv4) ^ (b as bv4)) as int
  }

  function Nibble(low: int, top: int): (r: int)
    requires 0 <= low < 0x1000_0000 && 0 <= top < 16
    ensures 0 <= r < 0x1000_0000
  {
    var nib := Xor4((low / 16) % 16, top);
    low / 256 * 256 + nib * 16 + low % 16
  }

  /** One round of the System V hash: the top four bits go, and are mixed into bits 4 to 7. */
  function SysvRound(h: int, c: octet): (r: int)
    requires 0 <= h < U32
    ensures 0 <= r < 0x1000_0000
  {
    var x := (h * 16 + c as int) % U32;
    Nibble(x % 0x1000_0000, x / 0x1000_0000)
  }

  function SysvHashFrom(h: int, name: Name): (r: int)
    requires 0 <= h < U32
    ensures 0 <= r < U32
    decreases |name|
  {
    if name == [] then h else SysvHashFrom(SysvRound(h, name[0]), name[1..])
  }

  function SysvHash(name: Name): (r: int)
    ensures 0 <= r < U32
  {
    SysvHashFrom(0, name)
  }

  method ComputeGnuHash(name: Name) returns (h: int)
    ensures h == GnuHash(name) && 0 <= h < U32
  {
    h := 5381;
    for i := 0 to |name|
      invariant 0 <= h < U32 && GnuHashFrom(h, name[i..]) == GnuHash(name)
    {
      assert name[i..][1..] == name[i + 1..];
      h := (h + h * 32 + name[i] as int) % U32;
    }
  }

  method ComputeSysvHash(name: Name) returns (h: int)
    ensures h == SysvHash(name) && 0 <= h < U32
  {
    h := 0;
    for i := 0 to |name|
      invariant 0 <= h < U32 && SysvHashFrom(h, name[i..]) == SysvHash(name)
    {
      assert name[i..][1..] == name[i + 1..];
      h := SysvRound(h, name[i]);
    }
  }

  /** The name as a numeral in base 33 behind the digit 5381. */
  function Base33(name: Name): int {
    if name == [] then 5381 else 33 * Base33(name[..|name| - 1]) + name[|name| - 1] as int
  }

  /** The GNU hash is that numeral, cut to 32 bits. */
  lemma {:induction false} GnuHashIsNumeral(name: Name)
    ensures GnuHash(name) == Base33(name) % 0x1_0000_0000
  {
    if name != [] {
      var front, c := name[..|name| - 1], name[|name| - 1];
      GnuHashIsNumeral(front);
      GnuHashAppend(5381, front, c);
      assert name == front + [c];
      Times33(Base33(front), c as int);
    }
  }

  lemma {:induction false} GnuHashAppend(h: int, name: Name, c: octet)
    requires 0 <= h < U32
    ensures GnuHashFrom(h, name + [c]) == (33 * GnuHashFrom(h, name) + c as int) % U32
    decreases |name|
  {
    if name == [] {
      assert ([] + [c])[1..] == [] && ([] + [c])[0] == c;
    } else {
      assert (name + [c])[1..] == name[1..] + [c];
      GnuHashAppend((h + h * 32 + name[0] as int) % U32, name[1..], c);
    }
  }

  lemma Times33(n: int, c: int)
    ensures (33 * (n % U32) + c) % U32 == (33 * n + c) % U32
  {
    var q, r := n / U32, n % U32;
    var x := 33 * r + c;
    assert 33 * n + c == U32 * (33 * q + x / U32) + x % U32;
    DivUnique(33 * n + c, U32, 33 * q + x / U32, x % U32);
  }

  lemma {:induction false} SysvHashAppend(h: int, name: Name, c: octet)
    requires 0 <= h < U32
    ensures SysvHashFrom(h, name + [c]) == SysvRound(SysvHashFrom(h, name), c)
    decreases |name|
  {
    hide SysvRound;
    if name == [] {
      assert ([] + [c])[1..] == [] && ([] + [c])[0] == c;
    } else {
      assert (name + [c])[1..] == name[1..] + [c];
      SysvHashAppend(SysvRound(h, name[0]), name[1..], c);
    }
  }

  /** What one more character does to the System V hash: the sum `x` is cut to 28 bits, and the four bits
      cut off are added, without carry, to bits 4 to 7. */
  lemma SysvHashNext(name: Name, c: octet)
    ensures SysvHash([]) == 0
    ensures var x, r := (16 * SysvHash(name) + c as int) % 0x1_0000_0000, SysvHash(name + [c]);
      && r % 16 == x % 16 && r / 256 == x % 0x1000_0000 / 256
      && (r / 16 % 16) as bv4 == ((x / 16 % 16) as bv4) ^ ((x / 0x1000_0000) as bv4)
  {
    var h := SysvHash(name);
    assert SysvHash([]) == 0 && SysvHash(name + [c]) == SysvRound(h, c) by {
      SysvHashAppend(0, name, c);
    }
    hide SysvHash, Nibble, Xor4;
    var x := (h * 16 + c as int) % U32;
    var low, top := x % 0x1000_0000, x / 0x1000_0000;
    NibbleParts(low, top);
    LowNibble(x);
    XorBits(low / 16 % 16, top);
  }

  lemma LowNibble(x: nat)
    ensures x % 0x1000_0000 % 16 == x % 16 && x % 0x1000_0000 / 16 % 16 == x / 16 % 16
  {
    var q, low := x / 0x1000_0000, x % 0x1000_0000;
    DivUnique(x, 16, q * 0x100_0000 + low / 16, low % 16);
    DivUnique(x / 16, 16, q * 0x10_0000 + low / 256, low / 16 % 16);
  }

  lemma XorBits(a: int, b: int)
    requires 0 <= a < 16 && 0 <= b < 16
    ensures Xor4(a, b) as bv4 == (a as bv4) ^ (b as bv4) && Xor4(a, 0) == a
  {
  }

  lemma NibbleParts(low: int, top: int)
    requires 0 <= low < 0x1000_0000 && 0 <= top < 16
    ensures var r := Nibble(low, top); r % 16 == low % 16 && r / 256 == low / 256 && r / 16 % 16 == Xor4(low / 16 % 16, top)
  {
    hide Xor4;
    var nib := Xor4((low / 16) % 16, top);
    var r := Nibble(low, top);
    assert r == 256 * (low / 256) + (nib * 16 + low % 16);
    DivUnique(r, 256, low / 256, nib * 16 + low % 16);
    DivUnique(r, 16, low / 256 * 16 + nib, low % 16);
  }

  const PRINTF: Name := [112, 114, 105, 110, 116, 102]
  const SYSCALL: Name := [115, 121, 115, 99, 97, 108, 108]

  /** Known values: of "printf", and of "syscall", whose last character makes the top bits come round. */
  lemma KnownHashes()
    ensures GnuHash(PRINTF) == 0x156b2bb8 && SysvHash(PRINTF) == 0x77905a6 && SysvHash(SYSCALL) == 0xb09985c
  {
    KnownGnu();
    KnownSysv();
    hide GnuHash, SysvHash;
  }

  lemma KnownGnu()
    ensures GnuHash(PRINTF) == 0x156b2bb8
  {
    hide GnuHashFrom;
    NameWhole(PRINTF);
    GnuFrom(5381, PRINTF, 0);
    GnuFrom(177685, PRINTF, 1);
    GnuFrom(5863719, PRINTF, 2);
    GnuFrom(193502832, PRINTF, 3);
    GnuFrom(2090626270, PRINTF, 4);
    GnuFrom(271190290, PRINTF, 5);
  }

  lemma KnownSysv()
    ensures SysvHash(PRINTF) == 0x77905a6 && SysvHash(SYSCALL) == 0xb09985c
  {
    hide SysvHashFrom;
    NameWhole(PRINTF);
    NameWhole(SYSCALL);
    SysvFrom(0, PRINTF, 0);
    SysvFrom(0x70, PRINTF, 1);
    SysvFrom(0x772, PRINTF, 2);
    SysvFrom(0x7789, PRINTF, 3);
    SysvFrom(0x778fe, PRINTF, 4);
    SysvFrom(0x779054, PRINTF, 5);
    SysvFrom(0, SYSCALL, 0);
    SysvFrom(0x73, SYSCALL, 1);
    SysvFrom(0x7a9, SYSCALL, 2);
    SysvFrom(0x7b03, SYSCALL, 3);
    SysvFrom(0x7b093, SYSCALL, 4);
    SysvFrom(0x7b0991, SYSCALL, 5);
    SysvFrom(0x7b0997c, SYSCALL, 6);
  }

  lemma NameWhole(name: Name)
    ensures name[0..] == name && forall h :: 0 <= h < U32 ==> GnuHashFrom(h, name[|name|..]) == SysvHashFrom(h, name[|name|..]) == h
  {
  }

  lemma GnuFrom(h: int, name: Name, i: nat)
    requires 0 <= h < U32 && i < |name|
    ensures GnuHashFrom(h, name[i..]) == GnuHashFrom((h * 33 + name[i] as int) % U32, name[i + 1..])
  {
    assert name[i..][1..] == name[i + 1..];
  }

  lemma SysvFrom(h: int, name: Name, i: nat)
    requires 0 <= h < U32 && i < |name|
    ensures var x := h * 16 + name[i] as int;
      && (x < 0x1000_0000 ==> SysvHashFrom(h, name[i..]) == SysvHashFrom(x, name[i + 1..]))
      && (x == 0x7b09982c ==> SysvHashFrom(h, name[i..]) == SysvHashFrom(0xb09985c, name[i + 1..]))
  {
    assert name[i..][1..] == name[i + 1..];
    RoundValue(h, name[i]);
    hide SysvRound;
  }

  lemma RoundValue(h: int, c: octet)
    requires 0 <= h < U32
    ensures var x := h * 16 + c as int;
      (x < 0x1000_0000 ==> SysvRound(h, c) == x) && (x == 0x7b09982c ==> SysvRound(h, c) == 0xb09985c)
  {
    var x := h * 16 + c as int;
    hide Xor4, Nibble;
    if x < 0x1000_0000 {
      DivUnique(x, U32, 0, x);
      DivUnique(x, 0x1000_0000, 0, x);
      NoTop(x);
    } else if x == 0x7b09982c {
      DivUnique(x, U32, 0, x);
      DivUnique(x, 0x1000_0000, 7, 0xb09982c);
      TopSeven();
    }
  }

  lemma NoTop(x: int)
    requires 0 <= x < 0x1000_0000
    ensures Nibble(x, 0) == x
  {
    XorBits(x / 16 % 16, 0);
    hide Xor4;
    ThreeParts(x);
  }

  lemma ThreeParts(x: int)
    ensures x / 256 * 256 + x / 16 % 16 * 16 + x % 16 == x
  {
    DivUnique(x, 256, x / 16 / 16, x / 16 % 16 * 16 + x % 16);
  }

  lemma TopSeven()
    ensures Nibble(0xb09982c, 7) == 0xb09985c
  {
    assert Xor4(2, 7) == 5;
    hide Xor4;
    assert 0xb09982c / 16 % 16 == 2 && 0xb09982c / 256 * 256 == 0xb099800 && 0xb09982c % 16 == 12;
  }

  // ----- linear search -----

  const ANY: int -> bool := _ => true

  predicate Matches(syms: seq<Sym>, i: int, name: Name, allowed: int -> bool)
    requires 0 <= i < |syms|
  {
    syms[i].name == name && allowed(syms[i].kind)
  }

  /** The first match in the list. */
  function Search(syms: seq<Sym>, from: nat, name: Name, allowed: int -> bool): (r: Option<nat>)
    requires from <= |syms|
    decreases |syms| - from
  {
    if from == |syms| then None
    else if Matches(syms, from, name, allowed) then Some(from)
    else Search(syms, from + 1, name, allowed)
  }

  lemma {:induction false} SearchFinds(syms: seq<Sym>, from: nat, name: Name, allowed: int -> bool, i: nat)
    requires from <= i <= |syms| && forall j :: from <= j < i ==> !Matches(syms, j, name, allowed)
    ensures i < |syms| && Matches(syms, i, name, allowed) ==> Search(syms, from, name, allowed) == Some(i)
    ensures i == |syms| ==> Search(syms, from, name, allowed) == None
    decreases i - from
  {
    if from < i {
      SearchFinds(syms, from + 1, name, allowed, i);
    }
  }

  // ----- .gnu.hash -----

  predicate Bit(word: int, k: nat) {
    (word / Pow2(k)) % 2 == 1
  }

  datatype GnuTable = GnuTable(symoffset: nat, bloom: seq<int>, bloomShift: nat, buckets: seq<int>, chains: seq<int>)

  function Bucket(t: GnuTable, hash: int): int
    requires t.buckets != [] && hash >= 0
  {
    hash % |t.buckets|
  }

  lemma BucketInRange(t: GnuTable, hash: int)
    requires t.buckets != [] && hash >= 0
    ensures 0 <= Bucket(t, hash) < |t.buckets|
  {
  }

  /** Both bits of the hash are set in its bloom word. */
  predicate Passes(t: GnuTable, hash: int)
    requires t.bloom != [] && hash >= 0
  {
    var word := t.bloom[(hash / CLASS_BITS) % |t.bloom|];
    Bit(word, hash % CLASS_BITS) && Bit(word, (hash / Pow2(t.bloomShift)) % CLASS_BITS)
  }

  /** The symbol is the last of its bucket. */
  predicate EndsChain(t: GnuTable, syms: seq<Sym>, i: nat)
    requires i < |syms| && t.buckets != []
  {
    i + 1 == |syms| || Bucket(t, GnuHash(syms[i + 1].name)) != Bucket(t, GnuHash(syms[i].name))
  }

  /** The table a linker writes for the symbols from `symoffset` on: sorted by bucket, every bucket
      with the index of its first symbol or an index below `symoffset`, every chain with the hashes,
      whose lowest bit marks the end of a bucket, and the bloom bits of every symbol. */
  ghost predicate WellFormed(t: GnuTable, syms: seq<Sym>) {
    && t.buckets != [] && t.bloom != [] && t.symoffset <= |syms| && |t.chains| == |syms| - t.symoffset
    && (forall i :: t.symoffset <= i < |syms| ==> Passes(t, GnuHash(syms[i].name)) && Linked(t, syms, i))
    && (forall i, j :: t.symoffset <= i <= j < |syms| ==> Bucket(t, GnuHash(syms[i].name)) <= Bucket(t, GnuHash(syms[j].name)))
    && (forall b :: 0 <= b < |t.buckets| ==> Starts(t, syms, b))
  }

  ghost predicate Linked(t: GnuTable, syms: seq<Sym>, i: nat)
    requires t.buckets != [] && t.symoffset <= i < |syms| && |t.chains| == |syms| - t.symoffset
  {
    var hash, c := GnuHash(syms[i].name), t.chains[i - t.symoffset];
    c / 2 == hash / 2 && (c % 2 == 1 <==> EndsChain(t, syms, i))
  }

  ghost predicate Starts(t: GnuTable, syms: seq<Sym>, b: nat)
    requires t.buckets != [] && b < |t.buckets|
  {
    var i := t.buckets[b];
    if i < t.symoffset then forall j :: t.symoffset <= j < |syms| ==> Bucket(t, GnuHash(syms[j].name)) != b
    else i < |syms| && Bucket(t, GnuHash(syms[i].name)) == b && forall j :: t.symoffset <= j < i ==> Bucket(t, GnuHash(syms[j].name)) != b
  }

  /** The bloom test never rejects a name that is there. */
  lemma BloomKeepsPresent(t: GnuTable, syms: seq<Sym>, name: Name)
    requires WellFormed(t, syms) && exists i :: t.symoffset <= i < |syms| && syms[i].name == name
    ensures Passes(t, GnuHash(name))
  {
    var i :| t.symoffset <= i < |syms| && syms[i].name == name;
    assert Passes(t, GnuHash(syms[i].name));
  }

  /** The hash with its lowest bit set, as the chains are compared. */
  function Or1(h: int): int {
    h - h % 2 + 1
  }

  /** Lookup through .gnu.hash: the symbol that linear search of the hashed symbols finds. bytehook
      allows functions, ifuncs and symbols of no type; xdl and xhook allow everything. */
  method GnuLookup(t: GnuTable, syms: seq<Sym>, name: Name, allowed: int -> bool) returns (r: Option<nat>)
    requires WellFormed(t, syms)
    ensures r == Search(syms, t.symoffset, name, allowed)
  {
    hide WellFormed, Passes, Bucket, GnuHash, EndsChain, Or1, Search;
    var hash := ComputeGnuHash(name);
    Sizes(t, syms);
    if !Passes(t, hash) {
      NotInBloom(t, syms, name, allowed);
      return None;
    }
    var b := Bucket(t, hash);
    BucketInRange(t, hash);
    BucketStart(t, syms, b, name, allowed);
    var i := t.buckets[b];
    if i < t.symoffset {
      SearchFinds(syms, t.symoffset, name, allowed, |syms|);
      return None;
    }
    while true
      invariant t.symoffset <= i < |syms| && Bucket(t, GnuHash(syms[i].name)) == b
      invariant forall j :: t.symoffset <= j < i ==> !Matches(syms, j, name, allowed)
      decreases |syms| - i
    {
      ChainAt(t, syms, i);
      var symHash := t.chains[i - t.symoffset];
      SameUpToFlag(GnuHash(syms[i].name), symHash, hash);
      if Or1(hash) == Or1(symHash) && allowed(syms[i].kind) && syms[i].name == name {
        SearchFinds(syms, t.symoffset, name, allowed, i);
        return Some(i);
      }
      assert !Matches(syms, i, name, allowed);
      if symHash % 2 == 1 {
        NoneBehind(t, syms, i, name, allowed);
        SearchFinds(syms, t.symoffset, name, allowed, |syms|);
        return None;
      }
      i := i + 1;
    }
  }

  lemma Sizes(t: GnuTable, syms: seq<Sym>)
    requires WellFormed(t, syms)
    ensures t.symoffset <= |syms| && t.buckets != [] && t.bloom != [] && |t.chains| == |syms| - t.symoffset
  {
  }

  /** Where a bucket starts, and that nothing before matches. */
  lemma BucketStart(t: GnuTable, syms: seq<Sym>, b: nat, name: Name, allowed: int -> bool)
    requires WellFormed(t, syms) && b < |t.buckets| && b == Bucket(t, GnuHash(name))
    ensures var i := t.buckets[b];
      if i < t.symoffset then forall j :: t.symoffset <= j < |syms| ==> !Matches(syms, j, name, allowed)
      else i < |syms| && Bucket(t, GnuHash(syms[i].name)) == b && forall j :: t.symoffset <= j < i ==> !Matches(syms, j, name, allowed)
  {
    hide Bucket, Passes, GnuHash;
    assert Starts(t, syms, b);
  }

  lemma ChainAt(t: GnuTable, syms: seq<Sym>, i: nat)
    requires WellFormed(t, syms) && t.symoffset <= i < |syms|
    ensures var hash, c := GnuHash(syms[i].name), t.chains[i - t.symoffset];
      c / 2 == hash / 2 && (c % 2 == 1 <==> EndsChain(t, syms, i))
    ensures !EndsChain(t, syms, i) ==> i + 1 < |syms| && Bucket(t, GnuHash(syms[i + 1].name)) == Bucket(t, GnuHash(syms[i].name))
  {
    hide Bucket, Passes, GnuHash;
    assert Linked(t, syms, i);
  }

  lemma SameUpToFlag(symHash: int, c: int, hash: int)
    requires c / 2 == symHash / 2
    ensures Or1(hash) == Or1(c) <==> hash / 2 == symHash / 2
  {
  }

  lemma NotInBloom(t: GnuTable, syms: seq<Sym>, name: Name, allowed: int -> bool)
    requires WellFormed(t, syms) && !Passes(t, GnuHash(name))
    ensures Search(syms, t.symoffset, name, allowed) == None
  {
    forall j | t.symoffset <= j < |syms|
      ensures !Matches(syms, j, name, allowed)
    {
      if syms[j].name == name {
        BloomKeepsPresent(t, syms, name);
      }
    }
    SearchFinds(syms, t.symoffset, name, allowed, |syms|);
  }

  /** Behind the end of a bucket come only other buckets. */
  lemma NoneBehind(t: GnuTable, syms: seq<Sym>, i: nat, name: Name, allowed: int -> bool)
    requires WellFormed(t, syms) && t.symoffset <= i < |syms| && EndsChain(t, syms, i)
    requires Bucket(t, GnuHash(syms[i].name)) == Bucket(t, GnuHash(name))
    ensures forall j :: i < j < |syms| ==> !Matches(syms, j, name, allowed)
  {
    forall j | i < j < |syms|
      ensures !Matches(syms, j, name, allowed)
    {
      assert Bucket(t, GnuHash(syms[i].name)) <= Bucket(t, GnuHash(syms[i + 1].name)) <= Bucket(t, GnuHash(syms[j].name));
    }
  }

  lemma Offset(t: GnuTable, syms: seq<Sym>)
    requires WellFormed(t, syms)
    ensures t.symoffset <= |syms|
  {
  }

  /** xh_elf_gnu_hash_lookup: the hashed symbols first, then the others one by one. */
  method GnuLookupAll(t: GnuTable, syms: seq<Sym>, name: Name) returns (r: Option<nat>)
    requires WellFormed(t, syms)
    ensures r.Some? ==> r.value < |syms| && syms[r.value].name == name
    ensures r == None ==> forall i :: 0 <= i < |syms| ==> syms[i].name != name
    ensures r.Some? && r.value < t.symoffset ==> forall i :: (0 <= i < r.value || t.symoffset <= i < |syms|) ==> syms[i].name != name
  {
    hide WellFormed, Search;
    Offset(t, syms);
    r := GnuLookup(t, syms, name, ANY);
    SearchNames(syms, t.symoffset, name);
    if r.Some? {
      return;
    }
    for i := 0 to t.symoffset
      invariant forall j :: 0 <= j < i ==> syms[j].name != name
    {
      if syms[i].name == name {
        return Some(i);
      }
    }
  }

  lemma {:induction false} SearchMeans(syms: seq<Sym>, from: nat, name: Name, allowed: int -> bool)
    requires from <= |syms|
    ensures match Search(syms, from, name, allowed)
      case None => forall j :: from <= j < |syms| ==> !Matches(syms, j, name, allowed)
      case Some(i) => from <= i < |syms| && Matches(syms, i, name, allowed) && forall j :: from <= j < i ==> !Matches(syms, j, name, allowed)
    decreases |syms| - from
  {
    if from < |syms| {
      SearchMeans(syms, from + 1, name, allowed);
    }
  }

  lemma SearchNames(syms: seq<Sym>, from: nat, name: Name)
    requires from <= |syms|
    ensures match Search(syms, from, name, ANY)
      case None => forall j :: from <= j < |syms| ==> syms[j].name != name
      case Some(i) => from <= i < |syms| && syms[i].name == name
  {
    SearchMeans(syms, from, name, ANY);
    if Search(syms, from, name, ANY) == None {
      forall j | from <= j < |syms|
        ensures syms[j].name != name
      {
        assert !Matches(syms, j, name, ANY);
      }
    }
  }

  // ----- .hash -----

  datatype SysvTable = SysvTable(buckets: seq<nat>, chains: seq<nat>)

  /** The chain from `i` on is `list`, and 0 ends it. */
  predicate Chained(t: SysvTable, i: nat, list: seq<nat>)
    decreases |list|
  {
    if list == [] then i == 0 else i != 0 && i == list[0] && i < |t.chains| && Chained(t, t.chains[i], list[1..])
  }

  /** Every bucket chains, in some order, exactly the symbols that hash to it; symbol 0 stands for
      none. `lists` are the chains. */
  ghost predicate WellFormedSysv(t: SysvTable, syms: seq<Sym>, lists: seq<seq<nat>>) {
    && t.buckets != [] && |lists| == |t.buckets| && |t.chains| == |syms| && syms != []
    && (forall b :: 0 <= b < |lists| ==> Chained(t, t.buckets[b], lists[b]))
    && forall i :: 0 < i < |syms| ==> i in lists[SysvHash(syms[i].name) % |t.buckets|]
  }

  lemma {:induction false} ChainedInside(t: SysvTable, i: nat, list: seq<nat>)
    requires Chained(t, i, list)
    ensures forall j :: j in list ==> 0 < j < |t.chains|
    decreases |list|
  {
    if list != [] {
      ChainedInside(t, t.chains[i], list[1..]);
      assert list == [i] + list[1..];
    }
  }

  /** The first symbol of a chain with the name and an allowed type. */
  function FirstOf(list: seq<nat>, syms: seq<Sym>, name: Name, allowed: int -> bool): Option<nat> {
    if list == [] then None
    else if list[0] < |syms| && Matches(syms, list[0], name, allowed) then Some(list[0])
    else FirstOf(list[1..], syms, name, allowed)
  }

  lemma {:induction false} FirstOfMeans(list: seq<nat>, syms: seq<Sym>, name: Name, allowed: int -> bool)
    ensures match FirstOf(list, syms, name, allowed)
      case None => forall i :: i in list && i < |syms| ==> !Matches(syms, i, name, allowed)
      case Some(i) => i in list && i < |syms| && Matches(syms, i, name, allowed)
  {
    if list != [] {
      FirstOfMeans(list[1..], syms, name, allowed);
      assert list == [list[0]] + list[1..];
    }
  }

  /** Lookup through .hash: the first symbol of the chain with the name and an allowed type, so one exactly
      when linear search finds one. It terminates on every such table. */
  method SysvLookup(t: SysvTable, syms: seq<Sym>, ghost lists: seq<seq<nat>>, name: Name, allowed: int -> bool)
    returns (r: Option<nat>)
    requires WellFormedSysv(t, syms, lists)
    ensures r.Some? ==> 0 < r.value < |syms| && Matches(syms, r.value, name, allowed)
    ensures r.Some? <==> Search(syms, 1, name, allowed).Some?
    ensures r == FirstOf(lists[SysvHash(name) % |t.buckets|], syms, name, allowed)
  {
    hide SysvHash;
    var hash := ComputeSysvHash(name);
    var i := t.buckets[hash % |t.buckets|];
    ghost var list, left := lists[hash % |t.buckets|], lists[hash % |t.buckets|];
    ghost var done: seq<nat> := [];
    while i != 0
      invariant Chained(t, i, left) && list == done + left
      invariant forall j :: j in done ==> j < |syms| && !Matches(syms, j, name, allowed)
      invariant FirstOf(list, syms, name, allowed) == FirstOf(left, syms, name, allowed)
      decreases |left|
    {
      if allowed(syms[i].kind) && syms[i].name == name {
        SearchMeans(syms, 1, name, allowed);
        return Some(i);
      }
      done, left := done + [i], left[1..];
      i := t.chains[i];
    }
    ChainedInside(t, 0, left);
    assert list == done;
    SearchMeans(syms, 1, name, allowed);
    r := None;
  }

  // ----- the lookups of exported symbols -----

  /** STT_NOTYPE, STT_FUNC and STT_GNU_IFUNC. */
  const FUNCS: int -> bool := kind => kind == 0 || kind == 2 || kind == 10

  ghost predicate Tables(gnu: Option<GnuTable>, sysv: Option<SysvTable>, syms: seq<Sym>, lists: seq<seq<nat>>) {
    && (gnu.Some? ==> WellFormed(gnu.value, syms) && gnu.value.symoffset > 0)
    && (sysv.Some? ==> WellFormedSysv(sysv.value, syms, lists))
  }

  /** One of the tables lists the symbol. */
  predicate Listed(gnu: Option<GnuTable>, sysv: Option<SysvTable>, i: nat) {
    i > 0 && (sysv.Some? || (gnu.Some? && gnu.value.symoffset <= i))
  }

  /** What each table gives for the name: the first symbol in its order. */
  ghost function GnuFirst(gnu: Option<GnuTable>, syms: seq<Sym>, name: Name, allowed: int -> bool): Option<nat>
    requires gnu.Some? ==> gnu.value.symoffset <= |syms|
  {
    if gnu.None? then None else Search(syms, gnu.value.symoffset, name, allowed)
  }

  ghost function SysvFirst(sysv: Option<SysvTable>, syms: seq<Sym>, lists: seq<seq<nat>>, name: Name, allowed: int -> bool): Option<nat>
    requires sysv.Some? ==> sysv.value.buckets != [] && |lists| == |sysv.value.buckets|
  {
    if sysv.None? then None else FirstOf(lists[SysvHash(name) % |sysv.value.buckets|], syms, name, allowed)
  }

  lemma TablesReady(gnu: Option<GnuTable>, sysv: Option<SysvTable>, syms: seq<Sym>, lists: seq<seq<nat>>)
    requires Tables(gnu, sysv, syms, lists)
    ensures gnu.Some? ==> 0 < gnu.value.symoffset <= |syms|
    ensures sysv.Some? ==> sysv.value.buckets != [] && |lists| == |sysv.value.buckets| && syms != []
  {
  }

  ghost predicate IsDefined(syms: seq<Sym>, r: Option<nat>) {
    r.Some? && r.value < |syms| && syms[r.value].defined
  }

  /** No listed symbol has the name exactly if neither table gives one, and what they give is listed. */
  lemma FirstListed(gnu: Option<GnuTable>, sysv: Option<SysvTable>, syms: seq<Sym>, lists: seq<seq<nat>>, name: Name, allowed: int -> bool)
    requires Tables(gnu, sysv, syms, lists)
    ensures gnu.Some? ==> 0 < gnu.value.symoffset <= |syms|
    ensures sysv.Some? ==> sysv.value.buckets != [] && |lists| == |sysv.value.buckets|
    ensures var g, s := GnuFirst(gnu, syms, name, allowed), SysvFirst(sysv, syms, lists, name, allowed);
      && (g.Some? ==> g.value < |syms| && Listed(gnu, sysv, g.value) && Matches(syms, g.value, name, allowed))
      && (s.Some? ==> s.value < |syms| && Listed(gnu, sysv, s.value) && Matches(syms, s.value, name, allowed))
      && (g == s == None <==> forall i :: 0 < i < |syms| && Listed(gnu, sysv, i) ==> !Matches(syms, i, name, allowed))
  {
    hide WellFormed, Search, SysvHash, Chained;
    if gnu.Some? {
      Offset(gnu.value, syms);
      SearchMeans(syms, gnu.value.symoffset, name, allowed);
    }
    if sysv.Some? {
      var b := SysvHash(name) % |sysv.value.buckets|;
      ChainedInside(sysv.value, sysv.value.buckets[b], lists[b]);
      FirstOfMeans(lists[b], syms, name, allowed);
    }
  }

  /** xdl_sym: .hash is asked only if .gnu.hash has nothing, and an undefined symbol counts as none. So
      there is no result exactly if no listed symbol has the name, or the first one is undefined. */
  method XdlSym(gnu: Option<GnuTable>, sysv: Option<SysvTable>, syms: seq<Sym>, ghost lists: seq<seq<nat>>, name: Name)
    returns (r: Option<nat>)
    requires Tables(gnu, sysv, syms, lists)
    ensures r.Some? ==> 0 < r.value < |syms| && syms[r.value].name == name && syms[r.value].defined && Listed(gnu, sysv, r.value)
    ensures XdlExactly(gnu, sysv, syms, lists, name, r)
  {
    hide Tables, WellFormed, WellFormedSysv, Search, SysvHash;
    TablesReady(gnu, sysv, syms, lists);
    FirstListed(gnu, sysv, syms, lists, name, ANY);
    r := None;
    if gnu.Some? {
      GnuReady(gnu, sysv, syms, lists);
      r := GnuLookup(gnu.value, syms, name, ANY);
    }
    if r == None && sysv.Some? {
      SysvReady(gnu, sysv, syms, lists);
      r := SysvLookup(sysv.value, syms, lists, name, ANY);
    }
    if r.Some? && !syms[r.value].defined {
      r := None;
    }
  }

  lemma GnuReady(gnu: Option<GnuTable>, sysv: Option<SysvTable>, syms: seq<Sym>, lists: seq<seq<nat>>)
    requires Tables(gnu, sysv, syms, lists) && gnu.Some?
    ensures WellFormed(gnu.value, syms)
  {
  }

  lemma SysvReady(gnu: Option<GnuTable>, sysv: Option<SysvTable>, syms: seq<Sym>, lists: seq<seq<nat>>)
    requires Tables(gnu, sysv, syms, lists) && sysv.Some?
    ensures WellFormedSysv(sysv.value, syms, lists)
  {
  }

  /** When xdl_sym finds nothing: nothing that is listed has the name, or the first that is listed for it is
      undefined. */
  ghost predicate XdlExactly(gnu: Option<GnuTable>, sysv: Option<SysvTable>, syms: seq<Sym>, lists: seq<seq<nat>>, name: Name, r: Option<nat>)
    requires gnu.Some? ==> gnu.value.symoffset <= |syms|
    requires sysv.Some? ==> sysv.value.buckets != [] && |lists| == |sysv.value.buckets|
  {
    var g, s := GnuFirst(gnu, syms, name, ANY), SysvFirst(sysv, syms, lists, name, ANY);
    r == None <==>
      (forall i :: 0 < i < |syms| && Listed(gnu, sysv, i) ==> !Matches(syms, i, name, ANY)) || !IsDefined(syms, if g.Some? then g else s)
  }

  /** bh_elf_find_export_func_symbol_by_symbol_name: .hash is asked also if .gnu.hash has an undefined
      function. So there is no result exactly if the first function that each table lists is undefined, or
      none is listed. */
  method ExportFunc(gnu: Option<GnuTable>, sysv: Option<SysvTable>, syms: seq<Sym>, ghost lists: seq<seq<nat>>, name: Name)
    returns (r: Option<nat>)
    requires Tables(gnu, sysv, syms, lists)
    ensures r.Some? ==> 0 < r.value < |syms| && Matches(syms, r.value, name, FUNCS) && syms[r.value].defined && Listed(gnu, sysv, r.value)
    ensures r.Some? ==> syms[r.value].name == name && (syms[r.value].kind == 0 || syms[r.value].kind == 2 || syms[r.value].kind == 10)
    ensures r == None ==> forall i :: 0 < i < |syms| && Listed(gnu, sysv, i) && syms[i].name == name && (syms[i].kind == 0 || syms[i].kind == 2 || syms[i].kind == 10) ==>
      exists j :: 0 < j < |syms| && syms[j].name == name && !syms[j].defined
    ensures ExportExactly(gnu, sysv, syms, lists, name, r)
  {
    hide Tables, WellFormed, WellFormedSysv, Search, SysvHash;
    TablesReady(gnu, sysv, syms, lists);
    FirstListed(gnu, sysv, syms, lists, name, FUNCS);
    if gnu.Some? {
      GnuReady(gnu, sysv, syms, lists);
      r := GnuLookup(gnu.value, syms, name, FUNCS);
      if r.Some? && syms[r.value].defined {
        return;
      }
    }
    if sysv.Some? {
      SysvReady(gnu, sysv, syms, lists);
      r := SysvLookup(sysv.value, syms, lists, name, FUNCS);
      if r.Some? && syms[r.value].defined {
        return;
      }
    }
    r := None;
  }

  ghost predicate ExportExactly(gnu: Option<GnuTable>, sysv: Option<SysvTable>, syms: seq<Sym>, lists: seq<seq<nat>>, name: Name, r: Option<nat>)
    requires gnu.Some? ==> gnu.value.symoffset <= |syms|
    requires sysv.Some? ==> sysv.value.buckets != [] && |lists| == |sysv.value.buckets|
  {
    var g, s := GnuFirst(gnu, syms, name, FUNCS), SysvFirst(sysv, syms, lists, name, FUNCS);
    r == None <==>
      (forall i :: 0 < i < |syms| && Listed(gnu, sysv, i) ==> !Matches(syms, i, name, FUNCS)) || (!IsDefined(syms, g) && !IsDefined(syms, s))
  }
}

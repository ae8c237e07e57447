/** The hash tables of a symbol list, as a linker builds them: they are well-formed, so the lookups agree
    with linear search on every list of symbols. */
module HashTables {
  import opened Basics
  import opened HashLookup

  // ----- a word from its bits -----

  /** Bit `k` of the bloom word `w`: some symbol sets it. */
  ghost predicate SetBit(syms: seq<Sym>, offset: nat, words: nat, shift: nat, w: nat, k: nat)
    requires words > 0 && offset <= |syms|
  {
    exists i :: offset <= i < |syms| && SetsBit(GnuHash(syms[i].name), words, shift, w, k)
  }

  ghost predicate SetsBit(hash: int, words: nat, shift: nat, w: nat, k: nat)
    requires words > 0 && hash >= 0
  {
    (hash / CLASS_BITS) % words == w && (k == hash % CLASS_BITS || k == (hash / Pow2(shift)) % CLASS_BITS)
  }

  /** The lower `n` bits of the bloom word. */
  ghost function BloomWord(syms: seq<Sym>, offset: nat, words: nat, shift: nat, w: nat, n: nat): (r: nat)
    requires words > 0 && offset <= |syms|
    ensures r < Pow2(n)
  {
    if n == 0 then 0 else
      BloomWord(syms, offset, words, shift, w, n - 1) + if SetBit(syms, offset, words, shift, w, n - 1) then Pow2(n - 1) else 0
  }

  lemma {:induction false} Pow2Split(k: nat, n: nat)
    requires k <= n
    ensures Pow2(n) == Pow2(k) * Pow2(n - k)
  {
    if k > 0 {
      Pow2Split(k - 1, n - 1);
    }
  }

  /** A power of two above bit `k` does not reach it. */
  lemma HigherBit(word: nat, k: nat, n: nat)
    requires k < n
    ensures Bit(word + Pow2(n), k) == Bit(word, k)
  {
    Pow2Split(k, n);
    var p, q := Pow2(k), Pow2(n - k - 1);
    assert Pow2(n - k) == 2 * q;
    hide Pow2;
    DivPlus(word, p, 2 * q);
    EvenPlus(word / p, q);
  }

  lemma EvenPlus(x: nat, q: nat)
    ensures (x + 2 * q) % 2 == x % 2
  {
  }

  lemma DivPlus(a: nat, p: nat, q: nat)
    requires p > 0
    ensures (a + p * q) / p == a / p + q
  {
    var d, m := a / p, a % p;
    assert a + p * q == p * (d + q) + m;
    DivUnique(a + p * q, p, d + q, m);
  }

  lemma OwnBit(word: nat, k: nat)
    requires word < Pow2(k)
    ensures Bit(word + Pow2(k), k) && !Bit(word, k)
  {
    DivUnique(word + Pow2(k), Pow2(k), 1, word);
    DivUnique(word, Pow2(k), 0, word);
  }

  /** The word has exactly the bits that are set. */
  lemma {:induction false} BloomBits(syms: seq<Sym>, offset: nat, words: nat, shift: nat, w: nat, n: nat, k: nat)
    requires words > 0 && offset <= |syms| && k < n
    ensures Bit(BloomWord(syms, offset, words, shift, w, n), k) <==> SetBit(syms, offset, words, shift, w, k)
  {
    hide SetBit, Bit;
    var word := BloomWord(syms, offset, words, shift, w, n - 1);
    if k == n - 1 {
      OwnBit(word, k);
    } else {
      BloomBits(syms, offset, words, shift, w, n - 1, k);
      HigherBit(word, k, n - 1);
    }
  }

  // ----- .gnu.hash -----

  /** The first symbol from `i` on in the bucket, or 0, the null symbol. */
  function FirstIn(syms: seq<Sym>, i: nat, size: nat, b: nat): (r: nat)
    requires size > 0 && i <= |syms|
    decreases |syms| - i
  {
    if i == |syms| then 0 else if GnuHash(syms[i].name) % size == b then i else FirstIn(syms, i + 1, size, b)
  }

  lemma {:induction false} FirstInIs(syms: seq<Sym>, i: nat, size: nat, b: nat)
    requires size > 0 && 0 < i <= |syms|
    ensures var r := FirstIn(syms, i, size, b);
      if r == 0 then forall j :: i <= j < |syms| ==> GnuHash(syms[j].name) % size != b
      else i <= r < |syms| && GnuHash(syms[r].name) % size == b && forall j :: i <= j < r ==> GnuHash(syms[j].name) % size != b
    decreases |syms| - i
  {
    hide GnuHash;
    if i < |syms| && GnuHash(syms[i].name) % size != b {
      FirstInIs(syms, i + 1, size, b);
    }
  }

  /** The last symbol of its bucket has its chain word marked. */
  function ChainWord(syms: seq<Sym>, size: nat, i: nat): int
    requires size > 0 && i < |syms|
  {
    var hash := GnuHash(syms[i].name);
    var ends := i + 1 == |syms| || GnuHash(syms[i + 1].name) % size != hash % size;
    hash / 2 * 2 + if ends then 1 else 0
  }

  /** The table for the symbols from `offset` on, with so many buckets and bloom words. */
  ghost function BuildGnu(syms: seq<Sym>, offset: nat, size: nat, words: nat, shift: nat): GnuTable
    requires 0 < offset <= |syms| && size > 0 && words > 0
  {
    GnuTable(offset,
             seq(words, w requires 0 <= w => BloomWord(syms, offset, words, shift, w, CLASS_BITS)), shift,
             seq(size, b requires 0 <= b => FirstIn(syms, offset, size, b)),
             seq(|syms| - offset, k requires 0 <= k < |syms| - offset => ChainWord(syms, size, offset + k)))
  }

  /** Symbols sorted by bucket. */
  predicate BucketSorted(syms: seq<Sym>, offset: nat, size: nat)
    requires size > 0
  {
    forall i, j :: offset <= i <= j < |syms| ==> GnuHash(syms[i].name) % size <= GnuHash(syms[j].name) % size
  }

  lemma BuiltPasses(syms: seq<Sym>, offset: nat, size: nat, words: nat, shift: nat, i: nat)
    requires 0 < offset <= i < |syms| && size > 0 && words > 0
    ensures Passes(BuildGnu(syms, offset, size, words, shift), GnuHash(syms[i].name))
  {
    var hash := GnuHash(syms[i].name);
    var w, k, k' := (hash / CLASS_BITS) % words, hash % CLASS_BITS, (hash / Pow2(shift)) % CLASS_BITS;
    hide GnuHash, Bit;
    assert SetsBit(hash, words, shift, w, k) && SetsBit(hash, words, shift, w, k');
    BloomBits(syms, offset, words, shift, w, CLASS_BITS, k);
    BloomBits(syms, offset, words, shift, w, CLASS_BITS, k');
  }

  lemma BuiltLinked(syms: seq<Sym>, offset: nat, size: nat, words: nat, shift: nat, i: nat)
    requires 0 < offset <= i < |syms| && size > 0 && words > 0
    ensures Linked(BuildGnu(syms, offset, size, words, shift), syms, i)
  {
    hide GnuHash;
    assert BuildGnu(syms, offset, size, words, shift).chains[i - offset] == ChainWord(syms, size, i);
  }

  /** Every list that is sorted by bucket has a well-formed .gnu.hash table. */
  lemma BuiltWellFormed(syms: seq<Sym>, offset: nat, size: nat, words: nat, shift: nat)
    requires 0 < offset <= |syms| && size > 0 && words > 0 && BucketSorted(syms, offset, size)
    ensures WellFormed(BuildGnu(syms, offset, size, words, shift), syms)
  {
    var t := BuildGnu(syms, offset, size, words, shift);
    hide GnuHash, Passes, Linked;
    forall i | offset <= i < |syms|
      ensures Passes(t, GnuHash(syms[i].name)) && Linked(t, syms, i)
    {
      BuiltPasses(syms, offset, size, words, shift, i);
      BuiltLinked(syms, offset, size, words, shift, i);
    }
    forall b | 0 <= b < size
      ensures Starts(t, syms, b)
    {
      FirstInIs(syms, offset, size, b);
    }
  }

  // ----- .hash -----

  /** The table with the symbols below `n` chained in, each in front of its bucket. */
  function BuildSysv(syms: seq<Sym>, size: nat, n: nat): (t: SysvTable)
    requires size > 0 && 0 < n <= |syms|
    ensures |t.buckets| == size && |t.chains| == |syms|
  {
    if n == 1 then SysvTable(seq(size, _ => 0), seq(|syms|, _ => 0)) else
      var t, i := BuildSysv(syms, size, n - 1), n - 1;
      var b := SysvHash(syms[i].name) % size;
      SysvTable(t.buckets[b := i], t.chains[i := t.buckets[b]])
  }

  function BuiltLists(syms: seq<Sym>, size: nat, n: nat): (lists: seq<seq<nat>>)
    requires size > 0 && 0 < n <= |syms|
    ensures |lists| == size
  {
    if n == 1 then seq(size, _ => []) else
      var lists, i := BuiltLists(syms, size, n - 1), n - 1;
      var b := SysvHash(syms[i].name) % size;
      lists[b := [i] + lists[b]]
  }

  lemma {:induction false} ChainedKept(t: SysvTable, i: nat, list: seq<nat>, t': SysvTable, n: nat)
    requires Chained(t, i, list) && |t'.chains| == |t.chains| && (forall j :: j in list ==> j < n)
    requires forall j :: 0 <= j < n && j < |t.chains| ==> t'.chains[j] == t.chains[j]
    ensures Chained(t', i, list)
    decreases |list|
  {
    if list != [] {
      assert list[0] in list && forall j :: j in list[1..] ==> j in list;
      ChainedKept(t, t.chains[i], list[1..], t', n);
    }
  }

  lemma {:induction false} BuiltChains(syms: seq<Sym>, size: nat, n: nat, b: nat)
    requires size > 0 && 0 < n <= |syms| && b < size
    ensures var t, list := BuildSysv(syms, size, n), BuiltLists(syms, size, n)[b];
      && Chained(t, t.buckets[b], list)
      && forall j :: j in list <==> 0 < j < n && SysvHash(syms[j].name) % size == b
  {
    hide SysvHash;
    if n > 1 {
      var t, list, i := BuildSysv(syms, size, n - 1), BuiltLists(syms, size, n - 1)[b], n - 1;
      BuiltChains(syms, size, n - 1, b);
      ChainedKept(t, t.buckets[b], list, BuildSysv(syms, size, n), n - 1);
      assert ([i] + list)[1..] == list;
    }
  }

  /** Every symbol list has a well-formed .hash table. */
  lemma BuiltWellFormedSysv(syms: seq<Sym>, size: nat)
    requires size > 0 && syms != []
    ensures WellFormedSysv(BuildSysv(syms, size, |syms|), syms, BuiltLists(syms, size, |syms|))
  {
    hide SysvHash, Chained;
    forall b | 0 <= b < size
      ensures Chained(BuildSysv(syms, size, |syms|), BuildSysv(syms, size, |syms|).buckets[b], BuiltLists(syms, size, |syms|)[b])
    {
      BuiltChains(syms, size, |syms|, b);
    }
    forall i | 0 < i < |syms|
      ensures i in BuiltLists(syms, size, |syms|)[SysvHash(syms[i].name) % size]
    {
      BuiltChains(syms, size, |syms|, SysvHash(syms[i].name) % size);
    }
  }

  // ----- an undefined symbol that hides a defined one -----

  const TWICE: seq<Sym> := [Sym([], 0, false), Sym([97], 2, false), Sym([97], 2, true)]

  /** The only table gives the first symbol of the name, which is undefined: so xdl_sym finds nothing, and
      neither does bytehook. */
  lemma UndefinedHides()
    ensures var gnu := Some(BuildGnu(TWICE, 1, 1, 1, 0));
      && Tables(gnu, None, TWICE, []) && Listed(gnu, None, 2) && Matches(TWICE, 2, [97], FUNCS) && TWICE[2].defined
      && XdlExactly(gnu, None, TWICE, [], [97], None) && ExportExactly(gnu, None, TWICE, [], [97], None)
  {
    hide GnuHash, BuildGnu, WellFormed;
    var t := BuildGnu(TWICE, 1, 1, 1, 0);
    BuiltWellFormed(TWICE, 1, 1, 1, 0);
    BuiltOffset(TWICE, 1, 1, 1, 0);
    assert Matches(TWICE, 1, [97], FUNCS) && Matches(TWICE, 1, [97], ANY);
  }

  lemma BuiltOffset(syms: seq<Sym>, offset: nat, size: nat, words: nat, shift: nat)
    requires 0 < offset <= |syms| && size > 0 && words > 0
    ensures BuildGnu(syms, offset, size, words, shift).symoffset == offset
  {
  }

  // ----- known tables -----

  const ONE: seq<Sym> := [Sym([], 0, false), Sym([97], 2, true)]

  /** The tables of a library that has one symbol, "a", word by word: in .gnu.hash the bloom bits 6 and 48,
      one bucket, which starts at symbol 1, and the hash 177670 with its end mark; in .hash one bucket. */
  lemma KnownTables()
    ensures WellFormed(GnuTable(1, [0x1_0000_0000_0040], 5, [1], [177671]), ONE)
    ensures WellFormedSysv(SysvTable([1], [0, 0]), ONE, [[1]])
  {
    var t := GnuTable(1, [0x1_0000_0000_0040], 5, [1], [177671]);
    assert GnuHash([97]) == 177670 by {
      GnuHashIsNumeral([97]);
    }
    hide GnuHash;
    KnownPowers();
    hide Pow2;
    assert Passes(t, 177670);
    assert Linked(t, ONE, 1);
    assert Chained(SysvTable([1], [0, 0]), 1, [1]);
  }

  lemma KnownPowers()
    ensures Pow2(5) == 32 && Pow2(6) == 64 && Pow2(48) == 0x1_0000_0000_0000
  {
    assert Pow2(2) == 4 && Pow2(4) == 16 && Pow2(6) == 64;
    Pow2Split(6, 12);
    Pow2Split(12, 24);
    Pow2Split(24, 48);
  }
}

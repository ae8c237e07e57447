/** The ELF manager: a red-black tree of the loaded objects, refreshed from the linker's list by mark
    and sweep, and searched by name over a fast path or a full scan. */
module ElfManager {
  import opened Basics
  import opened RbShape
  import opened RbLinks
  import opened RbTree
  import opened RbWalk

  // ----- names -----

  /** strcmp: the sign says which name comes first. */
  function StrCmp(a: string, b: string): int {
    if a == [] && b == [] then 0
    else if a == [] then -1
    else if b == [] then 1
    else if a[0] == b[0] then StrCmp(a[1..], b[1..])
    else a[0] as int - b[0] as int
  }

  lemma {:induction false} StrCmpZero(a: string, b: string)
    ensures StrCmp(a, b) == 0 <==> a == b
  {
    if a != [] && b != [] {
      StrCmpZero(a[1..], b[1..]);
      assert a == [a[0]] + a[1..] && b == [b[0]] + b[1..];
    }
  }

  lemma {:induction false} StrCmpFlips(a: string, b: string)
    ensures StrCmp(a, b) < 0 <==> StrCmp(b, a) > 0
  {
    if a != [] && b != [] {
      StrCmpFlips(a[1..], b[1..]);
    }
  }

  lemma {:induction false} StrCmpChain(a: string, b: string, c: string)
    requires StrCmp(a, b) <= 0 && StrCmp(b, c) <= 0
    ensures StrCmp(a, c) <= 0
  {
    if a != [] && b != [] && c != [] && a[0] == b[0] == c[0] {
      StrCmpChain(a[1..], b[1..], c[1..]);
    }
  }

  lemma StrCmpOrders()
    ensures TotalOrder(StrCmp)
  {
    forall a, b
      ensures StrCmp(a, b) < 0 <==> StrCmp(b, a) > 0
    {
      StrCmpFlips(a, b);
    }
    forall a, b, c | Chained(a, b, c) && StrCmp(a, b) <= 0 && StrCmp(b, c) <= 0
      ensures StrCmp(a, c) <= 0
    {
      StrCmpChain(a, b, c);
    }
  }

  predicate EndsWith(str: string, ending: string) {
    |ending| <= |str| && str[|str| - |ending|..] == ending
  }

  predicate IsPath(name: string) {
    name != [] && name[0] == '/'
  }

  /** bh_elf_is_match, and the comparison with a block list entry: a path matches a basename by its end. */
  predicate NamesMatch(a: string, b: string) {
    if IsPath(a) && !IsPath(b) then EndsWith(a, b)
    else if !IsPath(a) && IsPath(b) then EndsWith(b, a)
    else a == b
  }

  /** One name is what another one ends with. */
  ghost predicate Tail(name: string, tail: string) {
    exists front: string :: name == front + tail
  }

  lemma EndsWithTail(name: string, tail: string)
    ensures EndsWith(name, tail) <==> Tail(name, tail)
  {
    if EndsWith(name, tail) {
      assert name == name[..|name| - |tail|] + tail;
    }
  }

  /** If exactly one of two names begins with a slash, it is the one that ends with the other; otherwise
      they are the same. */
  lemma MatchExactly(a: string, b: string)
    ensures NamesMatch(a, b) <==>
      if "/" <= a && !("/" <= b) then Tail(a, b) else if "/" <= b && !("/" <= a) then Tail(b, a) else a == b
  {
    EndsWithTail(a, b);
    EndsWithTail(b, a);
  }

  /** The last component of a name. */
  function BaseName(name: string): string {
    if name == [] || name[|name| - 1] == '/' then [] else BaseName(name[..|name| - 1]) + [name[|name| - 1]]
  }

  lemma {:induction false} BaseBehind(front: string, base: string)
    requires '/' !in base
    ensures BaseName(front + base) == BaseName(front) + base
  {
    if base == [] {
      assert front + base == front;
    } else {
      var n := |base| - 1;
      assert base == base[..n] + [base[n]];
      BaseBehind(front, base[..n]);
      assert front + base == front + base[..n] + [base[n]];
      assert (front + base)[..|front + base| - 1] == front + base[..n];
    }
  }

  /** A path that matches a base name need not have it: only if the match begins behind a slash. */
  lemma BaseMatches(front: string, base: string)
    requires "/" <= front && '/' !in base
    ensures NamesMatch(front + base, base)
    ensures BaseName(front + base) == base <==> front[|front| - 1] == '/'
  {
    MatchExactly(front + base, base);
    BaseBehind(front, base);
    assert base == [] || base[0] in base;
  }

  /** The order of the names is that of a dictionary. */
  lemma {:induction false} StrCmpLess(a: string, b: string)
    ensures StrCmp(a, b) < 0 <==> exists k: nat :: Precedes(a, b, k)
  {
    if a == [] || b == [] || a[0] != b[0] {
      assert StrCmp(a, b) < 0 ==> Precedes(a, b, 0);
    } else {
      StrCmpLess(a[1..], b[1..]);
      hide Precedes;
      if k: nat :| Precedes(a, b, k) {
        PrecedesBehind(a, b, k);
      }
      if k: nat :| Precedes(a[1..], b[1..], k) {
        PrecedesBehind(a, b, k + 1);
      }
    }
  }

  lemma PrecedesBehind(a: string, b: string, k: nat)
    requires a != [] && b != [] && a[0] == b[0]
    ensures Precedes(a, b, k) <==> k > 0 && Precedes(a[1..], b[1..], k - 1)
  {
    if 0 < k <= |a| && k < |b| {
      assert a[..k] == [a[0]] + a[1..][..k - 1] && b[..k] == [b[0]] + b[1..][..k - 1];
      assert a[1..][..k - 1] == a[..k][1..] && b[1..][..k - 1] == b[..k][1..];
    }
  }

  /** The names are alike up to `k`, and there `a` ends or has the smaller character. */
  ghost predicate Precedes(a: string, b: string, k: nat) {
    k <= |a| && k < |b| && a[..k] == b[..k] && (k == |a| || a[k] < b[k])
  }

  /** What the linker reports of one object; `loadable` is false without program headers. */
  datatype Info = Info(name: string, loadBias: nat, loadable: bool)

  /** The objects the manager takes notice of. */
  predicate Wanted(blocklist: seq<string>, name: string) {
    && !EndsWith(name, "libbytehook.so") && (EndsWith(name, "app_process64") || EndsWith(name, ".so"))
    && forall i :: 0 <= i < |blocklist| ==> !NamesMatch(name, blocklist[i])
  }

  /** The block list is searched like the tree, and the suffixes are those of shared libraries, of the
      process itself, and of the hooking library. */
  lemma WantedExactly(blocklist: seq<string>, name: string)
    ensures Wanted(blocklist, name) <==>
      && (Tail(name, ".so") || Tail(name, "app_process64")) && !Tail(name, "libbytehook.so")
      && forall i :: 0 <= i < |blocklist| ==> !NamesMatch(name, blocklist[i])
  {
    EndsWithTail(name, ".so");
    EndsWithTail(name, "app_process64");
    EndsWithTail(name, "libbytehook.so");
  }

  predicate Reported(blocklist: seq<string>, infos: seq<Info>, key: string) {
    Wanted(blocklist, key) && exists i :: 0 <= i < |infos| && infos[i].name == key
  }

  predicate Loadable(infos: seq<Info>, key: string) {
    exists i :: 0 <= i < |infos| && infos[i].name == key && infos[i].loadable
  }

  /** The names that are new, in the order of discovery. */
  function NewNames(blocklist: seq<string>, infos: seq<Info>, known: set<string>): seq<string> {
    if infos == [] then [] else
      var s, info := NewNames(blocklist, infos[..|infos| - 1], known), infos[|infos| - 1];
      if Wanted(blocklist, info.name) && info.loadable && info.name !in known && info.name !in s then s + [info.name] else s
  }

  /** A name is new if it was not known and some report of it can be loaded; it is new only once. */
  lemma {:induction false} NewNamesAre(blocklist: seq<string>, infos: seq<Info>, known: set<string>, key: string)
    ensures key in NewNames(blocklist, infos, known) <==>
            key !in known && Wanted(blocklist, key) && Loadable(infos, key)
    ensures multiset(NewNames(blocklist, infos, known))[key] <= 1
  {
    if infos != [] {
      var n := |infos| - 1;
      NewNamesAre(blocklist, infos[..n], known, key);
      assert Loadable(infos, key) <==> Loadable(infos[..n], key) || (infos[n].name == key && infos[n].loadable);
    }
  }

  // ----- the tree of objects -----

  class Elf {
    const pathname: string
    const loadBias: nat
    var exist: bool

    constructor (info: Info)
      ensures pathname == info.name && loadBias == info.loadBias && !exist
    {
      pathname, loadBias, exist := info.name, info.loadBias, false;
    }
  }

  type Object = RbNode<string, Elf>

  ghost function Items(s: set<Object>): set<Elf> {
    set n | n in s :: n.item
  }

  lemma ItemsMore(before: set<Object>, born: seq<Object>)
    ensures forall e :: e in Items(before + SetOf(born)) ==> e in Items(before) || exists n :: n in born && e == n.item
  {
  }

  ghost function KeysOf(s: set<Object>): set<string> {
    set n | n in s :: n.key
  }

  function Names(s: seq<Object>): seq<string> {
    if s == [] then [] else Names(s[..|s| - 1]) + [s[|s| - 1].key]
  }

  /** The first object in tree order that matches, or null. */
  ghost predicate FirstMatch(s: seq<Object>, name: string, r: RbNode?<string, Elf>) {
    exists k: nat :: MatchAt(s, name, r, k)
  }

  ghost predicate MatchAt(s: seq<Object>, name: string, r: RbNode?<string, Elf>, k: nat) {
    && k <= |s| && (forall i :: 0 <= i < k ==> !NamesMatch(s[i].key, name))
    && if k == |s| then r == null else r == s[k] && NamesMatch(s[k].key, name)
  }

  /** The object has the name, or one that ends with it behind some front part, which is empty unless the
      object has a path and the name is none; or the other way round. */
  ghost predicate Called(n: Object, name: string) {
    if "/" <= name && !("/" <= n.key) then Tail(name, n.key)
    else exists front: string :: n.key == front + name && (front == [] || ("/" <= n.key && !("/" <= name)))
  }

  lemma CalledMatches(n: Object, name: string)
    ensures Called(n, name) <==> NamesMatch(n.key, name)
  {
    MatchExactly(n.key, name);
    if n.key == name {
      assert n.key == [] + name;
    }
  }

  /** The search finds nothing exactly if no object has the name in that sense, and else the one of them
      whose name comes first in dictionary order. */
  lemma FoundExactly(s: seq<Object>, objects: set<Object>, name: string, elf: RbNode?<string, Elf>)
    requires FirstMatch(s, name, elf) && objects == SetOf(s) && Sorted(StrCmp, s)
    ensures elf == null <==> forall n :: n in objects ==> !Called(n, name)
    ensures elf != null ==> elf in objects && Called(elf, name)
    ensures elf != null ==> forall n :: n in objects && n != elf && Called(n, name) ==> exists k: nat :: Precedes(elf.key, n.key, k)
  {
    hide Called, NamesMatch, Precedes;
    forall n | n in objects
      ensures Called(n, name) <==> NamesMatch(n.key, name)
      ensures elf != null && n != elf && Called(n, name) ==> exists k: nat :: Precedes(elf.key, n.key, k)
    {
      CalledMatches(n, name);
      if elf != null {
        StrCmpLess(elf.key, n.key);
      }
    }
  }

  lemma NextAt(all: seq<Object>, i: nat, y: RbNode?<string, Elf>)
    requires TotalOrder<string>(StrCmp) && Sorted(StrCmp, all) && i < |all| && Follows(all, all[i], y)
    ensures y == FirstOr(all[i + 1..])
  {
    assert all == all[..i] + ([all[i]] + all[i + 1..]);
    FollowsUnique(StrCmp, all[..i], all[i], all[i + 1..], y);
  }

  lemma {:induction false} KeptIs<N>(s: seq<N>, drop: set<N>, x: N)
    ensures x in Kept(s, drop) <==> x in s && x !in drop
  {
    if s != [] {
      KeptIs(s[..|s| - 1], drop, x);
      assert s == s[..|s| - 1] + [s[|s| - 1]];
    }
  }

  class ElfManager {
    var containPathname: bool
    var containBasename: bool
    const elfs: RbHead<string, Elf>
    var elfsCnt: nat
    var abandoned: seq<Object>
    var blocklist: seq<string>

    /** Each object is in the tree under its own name, and the two flags have noticed every kind of name
        that is in the tree. */
    ghost predicate Valid()
      reads this`containPathname, this`containBasename, this`elfsCnt, elfs, Nodes(elfs.shape)
    {
      && elfs.Valid() && elfs.cmp == StrCmp && elfsCnt == |elfs.Order()|
      && forall n :: n in Nodes(elfs.shape) ==>
        n.item.pathname == n.key && if IsPath(n.key) then containPathname else containBasename
    }

    ghost function Objects(): set<Object>
      reads elfs
    {
      Nodes(elfs.shape)
    }

    /** Between two refreshes no object is marked. */
    ghost predicate AtRest()
      reads elfs, Items(Objects())`exist
    {
      forall n :: n in Objects() ==> !n.item.exist
    }

    constructor ()
      ensures Valid() && AtRest() && Objects() == {} && abandoned == [] && blocklist == []
      ensures fresh(elfs)
    {
      StrCmpOrders();
      elfs := new RbHead<string, Elf>(StrCmp);
      containPathname, containBasename, elfsCnt, abandoned, blocklist := false, false, 0, [], [];
      new;
      InorderNodes(elfs.shape);
    }

    /** bh_elf_manager_add_ignore: an entry is kept once. */
    method AddIgnore(name: string)
      modifies this`blocklist
      ensures blocklist == if name in old(blocklist) then old(blocklist) else old(blocklist) + [name]
    {
      var i := 0;
      while i < |blocklist| && blocklist[i] != name
        invariant i <= |blocklist| && name !in blocklist[..i]
      {
        i := i + 1;
      }
      if i == |blocklist| {
        assert blocklist[..i] == blocklist;
        blocklist := blocklist + [name];
      }
    }

    method CheckIgnore(name: string) returns (ignored: bool)
      ensures ignored <==> exists i :: 0 <= i < |blocklist| && NamesMatch(name, blocklist[i])
    {
      for i := 0 to |blocklist|
        invariant forall k :: 0 <= k < i ==> !NamesMatch(name, blocklist[k])
      {
        if NamesMatch(name, blocklist[i]) {
          return true;
        }
      }
      return false;
    }

    // ----- refresh: mark -----

    /** The linker has reported `infos` so far: `born` has the objects created since, and exactly the
        reported objects are marked. */
    ghost predicate Marked(infos: seq<Info>, before: set<Object>, born: seq<Object>)
      reads this`containPathname, this`containBasename, this`elfsCnt, this`blocklist, elfs, Nodes(elfs.shape), Items(Objects())`exist
    {
      && Valid() && Objects() == before + SetOf(born)
      && (forall n :: n in born ==> n !in before)
      && Names(born) == NewNames(blocklist, infos, KeysOf(before))
      && forall n :: n in Objects() ==> (n.item.exist <==> Reported(blocklist, infos, n.key))
    }

    /** RB_FIND by name. */
    method Lookup(name: string) returns (elf: RbNode?<string, Elf>)
      requires Valid()
      ensures Valid()
      ensures elf != null ==> elf in Objects() && elf.key == name && forall n :: n in Objects() && n.key == name ==> n == elf
      ensures elf == null ==> name !in KeysOf(Objects())
    {
      hide TotalOrder, RedBlack, Sorted, TreeIn, PathIn, Apart;
      InorderNodes(elfs.shape);
      elf := Find(elfs, name);
      LookedUp(elfs.Order(), Objects(), elfs.cmp, name, elf);
    }

    method InsertElf(elf: Object)
      requires Valid() && elf !in Objects() && elf.key !in KeysOf(Objects())
      modifies elfs, elf, Objects()
      ensures elfs.Valid() && Objects() == old(Objects()) + {elf} && |elfs.Order()| == elfsCnt + 1
    {
      ghost var was := elfs.shape;
      hide TotalOrder, RedBlack, Sorted, TreeIn;
      var existing := elfs.Insert(elf);
      InorderNodes(was);
      if existing != null {
        StrCmpZero(elf.key, existing.key);
      }
    }

    /** bh_elf_create. */
    static method Create(info: Info) returns (elf: Object)
      ensures fresh(elf) && fresh(elf.item)
      ensures elf.key == info.name == elf.item.pathname && elf.item.loadBias == info.loadBias && !elf.item.exist
    {
      var item := new Elf(info);
      elf := new RbNode<string, Elf>(info.name, item);
    }

    /** A new object for `info`, in the tree. */
    method AddElf(info: Info) returns (elf: Object)
      requires Valid() && info.name !in KeysOf(Objects())
      modifies this`containPathname, this`containBasename, this`elfsCnt, elfs, Objects()
      ensures Valid() && Objects() == old(Objects()) + {elf} && fresh(elf) && fresh(elf.item)
      ensures elf.key == info.name && !elf.item.exist
    {
      hide TotalOrder, RedBlack, Sorted, TreeIn, EndsWith, NamesMatch;
      ghost var m := Picture(Objects());
      elf := Create(info);
      assert Picture(Objects()) == m;
      elfs.Untouched();
      InsertElf(elf);
      elfsCnt := elfsCnt + 1;
      if !containPathname && IsPath(info.name) {
        containPathname := true;
      }
      if !containBasename && !IsPath(info.name) {
        containBasename := true;
      }
    }

    method Skips(name: string) returns (skip: bool)
      ensures skip <==> !Wanted(blocklist, name)
    {
      if EndsWith(name, "libbytehook.so") {
        return true;
      }
      if !EndsWith(name, "app_process64") && !EndsWith(name, ".so") {
        return true;
      }
      skip := CheckIgnore(name);
    }

    /** What the linker calls for each object it reports. */
    method IterateCb(info: Info, collect: bool, newElfs: seq<Object>, ghost done: seq<Info>, ghost before: set<Object>, ghost born: seq<Object>)
      returns (newElfs': seq<Object>, ghost born': seq<Object>)
      requires Marked(done, before, born) && newElfs == if collect then born else []
      modifies this`containPathname, this`containBasename, this`elfsCnt, elfs, Objects(), Items(Objects())
      ensures Marked(done + [info], before, born') && newElfs' == if collect then born' else []
      ensures Objects() == before + SetOf(born') && forall n :: n in born' && n !in born ==> fresh(n) && fresh(n.item)
    {
      newElfs', born' := newElfs, born;
      OneMore(blocklist, done, info, KeysOf(before));
      BornOrBefore(before, born, info.name);
      hide Wanted, TotalOrder, RedBlack, Sorted, TreeIn, NewNames, Reported, Names;
      var skip := Skips(info.name);
      if skip {
        return;
      }
      var elf := Lookup(info.name);
      if elf != null {
        elf.item.exist := true;
      } else if info.loadable {
        elf, born' := Discover(info, done, before, born);
        if collect {
          newElfs' := newElfs + [elf];
        }
      }
    }

    method Discover(info: Info, ghost done: seq<Info>, ghost before: set<Object>, ghost born: seq<Object>)
      returns (elf: Object, ghost born': seq<Object>)
      requires Marked(done, before, born) && info.loadable && Wanted(blocklist, info.name) && info.name !in KeysOf(Objects())
      modifies this`containPathname, this`containBasename, this`elfsCnt, elfs, Objects()
      ensures Marked(done + [info], before, born') && born' == born + [elf] && fresh(elf) && fresh(elf.item)
    {
      hide Valid, Wanted, NewNames, Reported, Names;
      OneMore(blocklist, done, info, KeysOf(before));
      BornOrBefore(before, born, info.name);
      elf := AddElf(info);
      NamesMore(born, elf);
      assert elf !in before;
      born' := born + [elf];
      elf.item.exist := true;
      assert forall n :: n in old(Objects()) ==> n.item.exist == old(n.item.exist);
      assert forall n :: n in old(Objects()) ==> n.key != info.name;
    }

    lemma NothingMarked()
      requires Valid() && AtRest()
      ensures Marked([], Objects(), [])
    {
    }

    method IterateAll(infos: seq<Info>, collect: bool) returns (newElfs: seq<Object>, ghost born: seq<Object>)
      requires Valid() && AtRest()
      modifies this`containPathname, this`containBasename, this`elfsCnt, elfs, Objects(), Items(Objects())
      ensures Marked(infos, old(Objects()), born) && newElfs == if collect then born else []
      ensures Objects() == old(Objects()) + SetOf(born) && forall n :: n in born ==> fresh(n) && fresh(n.item)
    {
      hide Marked, Valid, AtRest, Items;
      ghost var before, items := Objects(), Items(Objects());
      newElfs, born := [], [];
      NothingMarked();
      assert infos[..0] == [];
      ItemsMore(before, born);
      for i := 0 to |infos|
        invariant Marked(infos[..i], before, born) && newElfs == if collect then born else []
        invariant Objects() == before + SetOf(born) && forall n :: n in born ==> fresh(n) && fresh(n.item)
        invariant fresh(Objects() - before) && fresh(Items(Objects()) - items)
      {
        assert infos[..i + 1] == infos[..i] + [infos[i]];
        newElfs, born := IterateCb(infos[i], collect, newElfs, infos[..i], before, born);
        ItemsMore(before, born);
      }
      assert infos[..|infos|] == infos;
    }

    // ----- refresh: sweep -----

    /** The sweep has passed `all[..i]`: unmarked objects among them are gone from the tree. */
    ghost predicate Sweeping(all: seq<Object>, i: nat, live: set<Object>, x: RbNode?<string, Elf>)
      reads this`containPathname, this`containBasename, this`elfsCnt, elfs, Nodes(elfs.shape)
    {
      Valid() && Objects() <= SetOf(all) && Swept(all, i, SetOf(all) - live, elfs.Order(), x)
    }

    method SweepOne(x: Object, ghost all: seq<Object>, ghost i: nat, ghost live: set<Object>) returns (y: RbNode?<string, Elf>)
      requires Sweeping(all, i, live, x) && Named(all) && Unswept(all, i, live)
      modifies this`elfsCnt, this`abandoned, elfs, Objects(), x.item
      ensures Sweeping(all, i + 1, live, y) && Unswept(all, i + 1, live) && Objects() <= old(Objects())
      ensures i < |all| && abandoned == old(abandoned) + if x in live then [] else [x]
      ensures x == all[i] && y == FirstOr(all[i + 1..])
    {
      hide Sweeping, Named;
      SweepAt(x, all, i, live);
      if !x.item.exist {
        y := SweepDead(x, all, i, live);
        abandoned := abandoned + [x];
      } else {
        y := SweepLive(x, all, i, live);
        x.item.exist := false;
      }
    }

    lemma SweepAt(x: Object, all: seq<Object>, i: nat, live: set<Object>)
      requires Sweeping(all, i, live, x) && Named(all)
      ensures i < |all| && x == all[i] && forall k :: 0 <= k < |all| && all[k].item == x.item ==> k == i
    {
      NameOnce(all);
    }

    method SweepDead(x: Object, ghost all: seq<Object>, ghost i: nat, ghost live: set<Object>) returns (y: RbNode?<string, Elf>)
      requires Sweeping(all, i, live, x) && i < |all| && x !in live
      modifies this`elfsCnt, elfs, Objects()
      ensures Sweeping(all, i + 1, live, y) && Objects() <= old(Objects()) && i < |all| && y == FirstOr(all[i + 1..])
    {
      hide TotalOrder, RedBlack, Sorted, TreeIn, Swept, Kept;
      y := SweepNode(x, true, all, i, live);
      elfsCnt := elfsCnt - 1;
    }

    method SweepLive(x: Object, ghost all: seq<Object>, ghost i: nat, ghost live: set<Object>) returns (y: RbNode?<string, Elf>)
      requires Sweeping(all, i, live, x) && i < |all| && x in live
      modifies elfs, Objects()
      ensures Sweeping(all, i + 1, live, y) && Objects() <= old(Objects()) && i < |all| && y == FirstOr(all[i + 1..])
    {
      hide TotalOrder, RedBlack, Sorted, TreeIn, Swept, Kept;
      y := SweepNode(x, false, all, i, live);
    }

    method SweepNode(x: Object, doomed: bool, ghost all: seq<Object>, ghost i: nat, ghost live: set<Object>) returns (y: RbNode?<string, Elf>)
      requires Sweeping(all, i, live, x) && i < |all| && (doomed <==> x !in live)
      modifies elfs, Objects()
      ensures elfs.Valid() && |elfs.Order()| == if doomed then elfsCnt - 1 else elfsCnt
      ensures Objects() <= old(Objects()) && Swept(all, i + 1, SetOf(all) - live, elfs.Order(), y)
      ensures y == FirstOr(all[i + 1..])
    {
      assert x == all[i];
      SweptNext(all, i, SetOf(all) - live);
      y := SweepBody(elfs, x, doomed, SetOf(all) - live, all, i);
    }

    method SweepFirst(ghost all: seq<Object>, ghost live: set<Object>) returns (x: RbNode?<string, Elf>)
      requires Valid() && all == elfs.Order()
      ensures Sweeping(all, 0, live, x) && x == FirstOr(all)
    {
      hide RbHead.Valid, Swept, Kept;
      SweptStart(all, SetOf(all) - live);
      InorderNodes(elfs.shape);
      x := MinMax(elfs, -1);
    }

    lemma SweepDone(all: seq<Object>, live: set<Object>)
      requires Sweeping(all, |all|, live, null)
      ensures Valid() && elfs.Order() == Kept(all, SetOf(all) - live)
    {
      SweptEnd(all, |all|, SetOf(all) - live, elfs.Order());
    }

    method SweepAll(ghost all: seq<Object>, ghost live: set<Object>)
      requires Valid() && all == elfs.Order() && Named(all) && Unswept(all, 0, live)
      modifies this`elfsCnt, this`abandoned, elfs, Objects(), Items(SetOf(all))
      ensures Sweeping(all, |all|, live, null) && Unswept(all, |all|, live)
      ensures abandoned == old(abandoned) + Kept(all, live)
    {
      hide Valid, Sweeping, Named, Unswept, Kept;
      ghost var i, was := 0, abandoned;
      var x := SweepFirst(all, live);
      KeptNone(all, live);
      assert all[0..] == all;
      while x != null
        invariant i <= |all| && Sweeping(all, i, live, x) && Unswept(all, i, live) && x == FirstOr(all[i..])
        invariant abandoned == was + Kept(all[..i], live) && Objects() <= old(Objects())
        decreases |all| - i
      {
        assert all[i..][0] in all;
        x := SweepOne(x, all, i, live);
        SweptNext(all, i, live);
        i := i + 1;
      }
      assert all[..i] == all;
    }

    /** RB_FOREACH_SAFE over the tree, dropping what is not marked. */
    method Sweep(ghost all: seq<Object>, ghost live: set<Object>)
      requires Valid() && all == elfs.Order() && Named(all) && Unswept(all, 0, live)
      modifies this`elfsCnt, this`abandoned, elfs, Objects(), Items(SetOf(all))
      ensures Valid() && Unswept(all, |all|, live) && elfs.Order() == Kept(all, SetOf(all) - live)
      ensures abandoned == old(abandoned) + Kept(all, live)
    {
      SweepAll(all, live);
      SweepDone(all, live);
    }

    // ----- refresh -----

    /** bh_elf_manager_refresh for what the linker reports: `called` has the objects that the callback
        was called with, `born` the new objects, and `gone` the ones taken out of the tree. */
    method Refresh(infos: seq<Info>, syncClean: bool, hasCb: bool)
      returns (called: seq<Object>, ghost born: seq<Object>, ghost gone: seq<Object>)
      requires Valid() && AtRest()
      modifies this`containPathname, this`containBasename, this`elfsCnt, this`abandoned, elfs, Objects(), Items(Objects())
      ensures Valid() && AtRest()
      ensures Objects() == StillReported(blocklist, infos, old(Objects())) + SetOf(born)
      ensures Names(born) == NewNames(blocklist, infos, KeysOf(old(Objects()))) && forall n :: n in born ==> fresh(n) && fresh(n.item)
      ensures called == if hasCb then born else []
      ensures SetOf(gone) == old(Objects()) - StillReported(blocklist, infos, old(Objects())) && Sorted(StrCmp, gone)
      ensures abandoned == if syncClean then [] else old(abandoned) + gone
    {
      hide Valid, AtRest, StillReported, NewNames, KeysOf, Names, SetOf, Sorted;
      var newElfs;
      newElfs, born, gone := MarkAndSweep(infos, hasCb);
      while syncClean && abandoned != []
        modifies this`abandoned
        invariant Valid() && AtRest() && (syncClean || abandoned == old(abandoned) + gone)
        decreases |abandoned|
      {
        abandoned := abandoned[1..];
      }
      called := [];
      while hasCb && newElfs != []
        modifies {}
        invariant Valid() && AtRest() && if hasCb then called + newElfs == born else called == []
        decreases |newElfs|
      {
        called, newElfs := called + [newElfs[0]], newElfs[1..];
      }
    }

    /** What happens under the lock. */
    method MarkAndSweep(infos: seq<Info>, collect: bool) returns (newElfs: seq<Object>, ghost born: seq<Object>, ghost gone: seq<Object>)
      requires Valid() && AtRest()
      modifies this`containPathname, this`containBasename, this`elfsCnt, this`abandoned, elfs, Objects(), Items(Objects())
      ensures Valid() && AtRest()
      ensures Objects() == StillReported(blocklist, infos, old(Objects())) + SetOf(born)
      ensures Names(born) == NewNames(blocklist, infos, KeysOf(old(Objects()))) && forall n :: n in born ==> fresh(n) && fresh(n.item)
      ensures newElfs == if collect then born else []
      ensures SetOf(gone) == old(Objects()) - StillReported(blocklist, infos, old(Objects())) && Sorted(StrCmp, gone)
      ensures abandoned == old(abandoned) + gone
    {
      hide Valid, AtRest, Marked, Reported;
      ghost var before := Objects();
      newElfs, born := IterateAll(infos, collect);
      ghost var all := elfs.Order();
      ghost var live := StillReported(blocklist, infos, Objects());
      ReadyToSweep(infos, before, born, all, live);
      hide Named, Unswept, NewNames, Kept, StillReported, Names, Sorted;
      Sweep(all, live);
      gone := Kept(all, live);
      AtRestAgain(all, live);
    }

    lemma ReadyToSweep(infos: seq<Info>, before: set<Object>, born: seq<Object>, all: seq<Object>, live: set<Object>)
      requires Marked(infos, before, born) && all == elfs.Order() && live == StillReported(blocklist, infos, Objects())
      ensures Valid() && Named(all) && Unswept(all, 0, live) && SetOf(all) == before + SetOf(born)
      ensures live == StillReported(blocklist, infos, before) + SetOf(born)
      ensures Names(born) == NewNames(blocklist, infos, KeysOf(before))
      ensures SetOf(Kept(all, live)) == before - StillReported(blocklist, infos, before) && Sorted(StrCmp, Kept(all, live))
    {
      InorderNodes(elfs.shape);
      assert SetOf(all) == Objects();
      BornReported(blocklist, infos, before, born);
      KeptSet(all, live);
      KeptSorted(all, live);
    }

    lemma AtRestAgain(all: seq<Object>, live: set<Object>)
      requires Valid() && Unswept(all, |all|, live) && elfs.Order() == Kept(all, SetOf(all) - live) && live <= SetOf(all)
      ensures AtRest() && Objects() == live
    {
      hide RbHead.Valid;
      InorderNodes(elfs.shape);
      KeptSet(all, SetOf(all) - live);
      assert Objects() == SetOf(elfs.Order());
      assert SetOf(all) - (SetOf(all) - live) == live;
    }

    // ----- lookup -----

    /** bh_elf_manager_find_elf: the first object in tree order that matches, on the fast path too. No mark
        is touched. */
    method FindElf(pathname: string) returns (elf: RbNode?<string, Elf>)
      requires Valid()
      ensures Valid() && FirstMatch(elfs.Order(), pathname, elf)
      ensures elf == null <==> forall n :: n in Objects() ==> !Called(n, pathname)
      ensures elf != null ==> elf in Objects() && Called(elf, pathname)
      ensures elf != null ==> forall n :: n in Objects() && n != elf && Called(n, pathname) ==> exists k: nat :: Precedes(elf.key, n.key, k)
      ensures old(AtRest()) ==> AtRest()
    {
      hide Valid, FirstMatch, Called, Precedes, Sorted;
      ghost var marks, atRest := Items(Objects()), AtRest();
      assert atRest ==> forall e :: e in marks ==> !e.exist;
      elf := Search(pathname);
      assert atRest ==> forall e :: e in marks ==> !e.exist;
      assert forall n :: n in Objects() ==> n.item in marks;
      InTreeOrder();
      FoundExactly(elfs.Order(), Objects(), pathname, elf);
    }

    lemma InTreeOrder()
      requires Valid()
      ensures Objects() == SetOf(elfs.Order()) && Sorted(StrCmp, elfs.Order())
    {
      InorderNodes(elfs.shape);
    }

    method Search(pathname: string) returns (elf: RbNode?<string, Elf>)
      requires Valid()
      ensures Valid() && FirstMatch(elfs.Order(), pathname, elf)
    {
      if (IsPath(pathname) && containPathname && !containBasename) || (!IsPath(pathname) && containBasename && !containPathname) {
        elf := Lookup(pathname);
        InorderNodes(elfs.shape);
        hide RbHead.Valid, NamesMatch;
        OneKind(elfs.Order(), pathname, elf);
      } else {
        elf := Scan(pathname);
      }
    }

    method First() returns (x: RbNode?<string, Elf>)
      requires Valid()
      ensures Valid() && x == FirstOr(elfs.Order())
    {
      x := MinMax(elfs, -1);
    }

    method After(x: Object, ghost i: nat) returns (y: RbNode?<string, Elf>)
      requires Valid() && i < |elfs.Order()| && x == elfs.Order()[i]
      ensures Valid() && y == FirstOr(elfs.Order()[i + 1..])
    {
      ghost var all := elfs.Order();
      InorderNodes(elfs.shape);
      assert all[i] in all;
      y := Next(elfs, x);
      NextAt(all, i, y);
    }

    /** RB_FOREACH up to the first match. */
    method Scan(pathname: string) returns (elf: RbNode?<string, Elf>)
      requires Valid()
      ensures Valid() && FirstMatch(elfs.Order(), pathname, elf)
    {
      hide NamesMatch, Valid;
      ghost var i := 0;
      elf := First();
      assert elfs.Order()[0..] == elfs.Order();
      while elf != null
        invariant Valid() && i <= |elfs.Order()| && elf == FirstOr(elfs.Order()[i..])
        invariant forall k :: 0 <= k < i ==> !NamesMatch(elfs.Order()[k].key, pathname)
        decreases |elfs.Order()| - i
      {
        assert elf == elfs.Order()[i];
        if NamesMatch(elf.key, pathname) {
          break;
        }
        elf := After(elf, i);
        i := i + 1;
      }
      assert MatchAt(elfs.Order(), pathname, elf, i);
    }
  }

  ghost function FirstIndex<T>(s: seq<T>, x: T): (k: nat)
    requires x in s
    ensures k < |s| && s[k] == x && forall i :: 0 <= i < k ==> s[i] != x
  {
    if s[0] == x then 0 else FirstIndex(s[1..], x) + 1
  }

  /** Among names of one kind, matching is equality. */
  lemma OneKind(s: seq<Object>, name: string, elf: RbNode?<string, Elf>)
    requires forall n :: n in s ==> (IsPath(n.key) <==> IsPath(name))
    requires elf != null ==> elf in s && elf.key == name && forall n :: n in s && n.key == name ==> n == elf
    requires elf == null ==> forall n :: n in s ==> n.key != name
    ensures FirstMatch(s, name, elf)
  {
    var k := if elf == null then |s| else FirstIndex(s, elf);
    assert forall i :: 0 <= i < k ==> s[i] in s;
    assert MatchAt(s, name, elf, k);
  }

  /** Which names are loaded after a refresh: the reported ones that were known, or can be loaded. */
  lemma RefreshedNames(blocklist: seq<string>, infos: seq<Info>, before: set<Object>, born: seq<Object>, key: string)
    requires Names(born) == NewNames(blocklist, infos, KeysOf(before))
    ensures key in KeysOf(StillReported(blocklist, infos, before) + SetOf(born)) <==>
            Reported(blocklist, infos, key) && (key in KeysOf(before) || Loadable(infos, key))
  {
    NamesIn(born, key);
    NewNamesAre(blocklist, infos, KeysOf(before), key);
    BornReported(blocklist, infos, before, born);
  }

  /** The objects whose names the linker still reports. */
  ghost function StillReported(blocklist: seq<string>, infos: seq<Info>, objects: set<Object>): set<Object> {
    set n | n in objects && Reported(blocklist, infos, n.key)
  }

  /** Objects in tree order, each under its own name. */
  ghost predicate Named(all: seq<Object>) {
    TotalOrder<string>(StrCmp) && Sorted(StrCmp, all) && forall n :: n in all ==> n.item.pathname == n.key
  }

  /** Behind `i` the objects in `live` are the marked ones; before it their marks are cleared. */
  ghost predicate Unswept(all: seq<Object>, i: nat, live: set<Object>)
    reads Items(SetOf(all))`exist
  {
    && (forall k :: i <= k < |all| ==> (all[k].item.exist <==> all[k] in live))
    && (forall k :: 0 <= k < i && k < |all| && all[k] in live ==> !all[k].item.exist)
  }

  lemma KeptSet(s: seq<Object>, drop: set<Object>)
    ensures SetOf(Kept(s, drop)) == SetOf(s) - drop
  {
    forall x | x in Kept(s, drop)
      ensures x in SetOf(s) - drop
    {
      KeptIs(s, drop, x);
    }
    forall x | x in SetOf(s) - drop
      ensures x in Kept(s, drop)
    {
      KeptIs(s, drop, x);
    }
  }

  lemma {:induction false} KeptSorted(s: seq<Object>, drop: set<Object>)
    requires Sorted(StrCmp, s)
    ensures Sorted(StrCmp, Kept(s, drop))
  {
    if s != [] {
      var n := |s| - 1;
      KeptSorted(s[..n], drop);
      KeptBefore(s[..n], drop, s[n].key);
    }
  }

  lemma {:induction false} KeptBefore(s: seq<Object>, drop: set<Object>, key: string)
    requires forall i :: 0 <= i < |s| ==> StrCmp(s[i].key, key) < 0
    ensures forall i :: 0 <= i < |Kept(s, drop)| ==> StrCmp(Kept(s, drop)[i].key, key) < 0
  {
    if s != [] {
      KeptBefore(s[..|s| - 1], drop, key);
    }
  }

  /** Every new object has been reported. */
  lemma BornReported(blocklist: seq<string>, infos: seq<Info>, before: set<Object>, born: seq<Object>)
    requires Names(born) == NewNames(blocklist, infos, KeysOf(before))
    ensures forall n :: n in born ==> Reported(blocklist, infos, n.key)
  {
    forall n | n in born
      ensures Reported(blocklist, infos, n.key)
    {
      NamesIn(born, n.key);
      NewNamesAre(blocklist, infos, KeysOf(before), n.key);
    }
  }

  lemma KeptNone<N>(s: seq<N>, drop: set<N>)
    ensures Kept(s[..0], drop) == []
  {
  }

  lemma NameOnce(s: seq<Object>)
    requires TotalOrder<string>(StrCmp) && Sorted(StrCmp, s)
    ensures forall i, j :: 0 <= i < |s| && 0 <= j < |s| && s[i].key == s[j].key ==> i == j
  {
  }

  /** What the search by strcmp says about the names. */
  lemma LookedUp(s: seq<Object>, objects: set<Object>, cmp: (string, string) -> int, name: string, elf: RbNode?<string, Elf>)
    requires cmp == StrCmp && TotalOrder(cmp) && Sorted(cmp, s)
    requires (forall n :: n in objects ==> n in s) && forall n :: n in s ==> n in objects
    requires elf != null ==> elf in s && cmp(name, elf.key) == 0
    requires elf == null ==> forall n :: n in s ==> cmp(name, n.key) != 0
    ensures elf != null ==> elf in objects && elf.key == name && forall n :: n in objects && n.key == name ==> n == elf
    ensures elf == null ==> name !in KeysOf(objects)
  {
    NameOnce(s);
    hide TotalOrder, Sorted;
    forall n | n in objects
      ensures StrCmp(name, n.key) == 0 <==> name == n.key
    {
      StrCmpZero(name, n.key);
    }
  }

  lemma NamesMore(s: seq<Object>, n: Object)
    ensures Names(s + [n]) == Names(s) + [n.key] && SetOf(s + [n]) == SetOf(s) + {n}
  {
    assert (s + [n])[..|s|] == s;
  }

  /** A name is known or new exactly when an object of the tree has it. */
  lemma BornOrBefore(before: set<Object>, born: seq<Object>, key: string)
    ensures key in KeysOf(before + SetOf(born)) <==> key in KeysOf(before) || key in Names(born)
  {
    NamesIn(born, key);
  }

  /** What one more report changes. */
  lemma OneMore(blocklist: seq<string>, done: seq<Info>, info: Info, known: set<string>)
    ensures var s := NewNames(blocklist, done, known);
      NewNames(blocklist, done + [info], known) ==
      if Wanted(blocklist, info.name) && info.loadable && info.name !in known && info.name !in s then s + [info.name] else s
    ensures forall key :: Reported(blocklist, done + [info], key) <==>
                          Reported(blocklist, done, key) || (Wanted(blocklist, key) && key == info.name)
  {
    var all := done + [info];
    assert all[..|all| - 1] == done;
    assert all[|all| - 1] == info;
    assert forall i :: 0 <= i < |done| ==> all[i] == done[i];
  }

  lemma {:induction false} NamesIn(s: seq<Object>, key: string)
    ensures key in Names(s) <==> exists n :: n in s && n.key == key
  {
    if s != [] {
      NamesIn(s[..|s| - 1], key);
      assert s == s[..|s| - 1] + [s[|s| - 1]];
    }
  }

  // ----- a client -----

  /** A new manager is refreshed twice and searched. The names it knows are the wanted ones that were
      reported last, if one of the two reports could be loaded. */
  method RefreshTwice(first: seq<Info>, second: seq<Info>, name: string) returns (manager: ElfManager, elf: RbNode?<string, Elf>)
    ensures fresh(manager) && manager.Valid() && manager.AtRest() && FirstMatch(manager.elfs.Order(), name, elf)
    ensures forall key :: key in KeysOf(manager.Objects()) <==> Reported([], second, key) && (Loadable(first, key) || Loadable(second, key))
  {
    hide ElfManager.Valid, ElfManager.AtRest, KeysOf, StillReported, Reported, Loadable, NewNames, FirstMatch, Names;
    manager := new ElfManager();
    ghost var none := manager.Objects();
    var called;
    ghost var born, gone;
    called, born, gone := manager.Refresh(first, false, true);
    ghost var before := manager.Objects();
    KnownNames(first, none, born, before);
    called, born, gone := manager.Refresh(second, false, true);
    KnownAgain(first, second, before, born, manager.Objects());
    elf := manager.FindElf(name);
  }

  lemma KnownNames(infos: seq<Info>, none: set<Object>, born: seq<Object>, objects: set<Object>)
    requires none == {} && Names(born) == NewNames([], infos, KeysOf(none)) && objects == StillReported([], infos, none) + SetOf(born)
    ensures objects == SetOf(born)
    ensures forall key :: key in KeysOf(objects) <==> Reported([], infos, key) && Loadable(infos, key)
  {
    forall key
      ensures key in KeysOf(objects) <==> Reported([], infos, key) && Loadable(infos, key)
    {
      RefreshedNames([], infos, none, born, key);
    }
  }

  lemma KnownAgain(first: seq<Info>, second: seq<Info>, before: set<Object>, born: seq<Object>, objects: set<Object>)
    requires forall key :: key in KeysOf(before) <==> Reported([], first, key) && Loadable(first, key)
    requires Names(born) == NewNames([], second, KeysOf(before)) && objects == StillReported([], second, before) + SetOf(born)
    ensures forall key :: key in KeysOf(objects) <==> Reported([], second, key) && (Loadable(first, key) || Loadable(second, key))
  {
    forall key
      ensures key in KeysOf(objects) <==> Reported([], second, key) && (Loadable(first, key) || Loadable(second, key))
    {
      RefreshedNames([], second, before, born, key);
    }
  }

  /** A manager that has been refreshed once: it knows the wanted names that can be loaded. */
  method Loaded(infos: seq<Info>) returns (manager: ElfManager)
    ensures fresh(manager) && manager.Valid()
    ensures forall key :: key in KeysOf(manager.Objects()) <==> Reported([], infos, key) && Loadable(infos, key)
  {
    hide ElfManager.Valid, ElfManager.AtRest, KeysOf, Reported, Loadable, Names, NewNames, StillReported, Sorted;
    manager := new ElfManager();
    ghost var none := manager.Objects();
    var called;
    ghost var born, gone;
    called, born, gone := manager.Refresh(infos, false, true);
    KnownNames(infos, none, born, manager.Objects());
  }

  const LIBC := "/system/lib64/libc.so"
  const OTHER := "/apex/lib64/mylibc.so"

  /** A library that is known by its path is found by its base name. So is another one whose name ends with
      that base name, and if it comes first in the order of names, it is the one that is returned. */
  method FindByBase() returns (elf: RbNode?<string, Elf>, other: RbNode?<string, Elf>)
    ensures elf != null && elf.key == "/system/lib64/libc.so"
    ensures other != null && other.key == "/apex/lib64/mylibc.so"
  {
    hide ElfManager.Valid, KeysOf, FirstMatch, Called, Precedes, Reported, Loadable;
    var manager := Loaded([Info(LIBC, 4096, true)]);
    elf := manager.FindElf("libc.so");
    OneLibrary(manager.Objects(), elf);
    manager := Loaded([Info(LIBC, 4096, true), Info(OTHER, 8192, true)]);
    other := manager.FindElf("libc.so");
    TwoLibraries(manager.Objects(), other);
  }

  /** The names are those of the two libraries as far as these have been reported. */
  lemma Libraries(infos: seq<Info>)
    requires forall i :: 0 <= i < |infos| ==> infos[i].loadable && (infos[i].name == LIBC || infos[i].name == OTHER)
    ensures forall key :: Reported([], infos, key) && Loadable(infos, key) <==> exists i :: 0 <= i < |infos| && infos[i].name == key
  {
    assert EndsWith(LIBC, ".so") && !EndsWith(LIBC, "libbytehook.so");
    assert EndsWith(OTHER, ".so") && !EndsWith(OTHER, "libbytehook.so");
    hide EndsWith;
    assert Wanted([], LIBC) && Wanted([], OTHER);
    hide Wanted;
  }

  lemma CalledLibc(n: Object)
    requires n.key == LIBC || n.key == OTHER
    ensures Called(n, "libc.so")
  {
    var front := if n.key == LIBC then "/system/lib64/" else "/apex/lib64/my";
    assert n.key[0] == '/' && "libc.so"[0] != '/';
    assert n.key == front + "libc.so";
  }

  lemma OneLibrary(objects: set<Object>, elf: RbNode?<string, Elf>)
    requires var infos := [Info(LIBC, 4096, true)]; forall key :: key in KeysOf(objects) <==> Reported([], infos, key) && Loadable(infos, key)
    requires elf == null <==> forall n :: n in objects ==> !Called(n, "libc.so")
    requires elf != null ==> elf in objects
    ensures elf != null && elf.key == LIBC
  {
    hide Called, Reported, Loadable;
    var infos := [Info(LIBC, 4096, true)];
    Libraries(infos);
    assert infos[0].name == LIBC;
    assert LIBC in KeysOf(objects);
    var n :| n in objects && n.key == LIBC;
    CalledLibc(n);
    assert elf.key in KeysOf(objects);
  }

  lemma TwoLibraries(objects: set<Object>, elf: RbNode?<string, Elf>)
    requires var infos := [Info(LIBC, 4096, true), Info(OTHER, 8192, true)];
      forall key :: key in KeysOf(objects) <==> Reported([], infos, key) && Loadable(infos, key)
    requires elf == null <==> forall n :: n in objects ==> !Called(n, "libc.so")
    requires elf != null ==> elf in objects && forall n :: n in objects && n != elf && Called(n, "libc.so") ==> exists k: nat :: Precedes(elf.key, n.key, k)
    ensures elf != null && elf.key == OTHER
  {
    hide Called, Reported, Loadable, Precedes;
    var infos := [Info(LIBC, 4096, true), Info(OTHER, 8192, true)];
    Libraries(infos);
    assert infos[1].name == OTHER;
    assert OTHER in KeysOf(objects);
    var n :| n in objects && n.key == OTHER;
    CalledLibc(n);
    assert elf.key in KeysOf(objects);
    OtherFirst();
  }

  lemma OtherFirst()
    ensures !exists k: nat :: Precedes(LIBC, OTHER, k)
  {
    assert LIBC[1] == 's' && OTHER[1] == 'a';
    forall k: nat
      ensures !Precedes(LIBC, OTHER, k)
    {
      if 1 < k <= |LIBC| && k < |OTHER| {
        assert LIBC[..k][1] == 's' && OTHER[..k][1] == 'a';
      }
    }
  }
}

/** Replaying the journal, and what a crash can do to it. */
module Journal {
  import opened Basics
  import opened JournalText
  import opened LineReader

  // ----- replay -----

  /** What the cache knows of one key. */
  datatype Slot = Slot(readable: bool, editing: bool, lengths: seq<int>)
  type Slots = map<string, Slot>

  function Zeros(n: nat): seq<int> { seq(n, _ => 0) }

  function FreshSlot(valueCount: nat): Slot {
    Slot(false, false, Zeros(valueCount))
  }

  function SlotOr(m: Slots, key: string, valueCount: nat): Slot {
    if key in m then m[key] else FreshSlot(valueCount)
  }

  /** The effect of one journal line. */
  function Apply(m: Slots, r: Record, valueCount: nat): Slots {
    match r
    case Remove(k) => m - {k}
    case Clean(k, ls) => m[k := Slot(true, false, ls)]
    case Dirty(k) => m[k := SlotOr(m, k, valueCount).(editing := true)]
    case Read(k) => m[k := SlotOr(m, k, valueCount)]
  }

  function Replay(log: seq<Record>, valueCount: nat): Slots {
    if log == [] then map[] else Apply(Replay(log[..|log| - 1], valueCount), log[|log| - 1], valueCount)
  }

  /** Opening drops every entry that was under edit. */
  function Cleaned(m: Slots): Slots {
    map k | k in m && !m[k].editing :: m[k]
  }

  /** Key to lengths of the entries with no open editor. */
  function CleanMap(m: Slots): map<string, seq<int>> {
    map k | k in m && !m[k].editing :: m[k].lengths
  }

  // ----- the text of a whole journal -----

  const MAGIC := "libcore.io.DiskLruCache"
  const VERSION_1 := "1"

  function HeaderLines(appVersion: int, valueCount: nat): seq<string> {
    [MAGIC, VERSION_1, Decimal(appVersion), Decimal(valueCount), ""]
  }

  function Unlines(lines: seq<string>): string {
    if lines == [] then "" else lines[0] + [LF] + Unlines(lines[1..])
  }

  function LinesOf(log: seq<Record>): seq<string> {
    if log == [] then [] else [Line(log[0])] + LinesOf(log[1..])
  }

  function Header(appVersion: int, valueCount: nat): string {
    Unlines(HeaderLines(appVersion, valueCount))
  }

  function JournalOf(log: seq<Record>, appVersion: int, valueCount: nat): string {
    Header(appVersion, valueCount) + Unlines(LinesOf(log))
  }

  function ParseLines(lines: seq<string>, valueCount: nat): Option<seq<Record>> {
    if lines == [] then Some([])
    else match ParseLine(lines[0], valueCount)
      case None => None
      case Some(r) => match ParseLines(lines[1..], valueCount)
        case None => None
        case Some(rs) => Some([r] + rs)
  }

  /** The records of a journal text; None where opening calls it corrupt. */
  function ReadBack(text: string, appVersion: int, valueCount: nat): Option<seq<Record>> {
    var lines := Lines(text);
    if |lines| < 5 || lines[..5] != HeaderLines(appVersion, valueCount) then None else ParseLines(lines[5..], valueCount)
  }

  // ----- a journal and any truncation of it read back -----

  predicate Unbroken(line: string) {
    LF !in line && CR !in line
  }

  lemma LinesCons(line: string, s: string)
    requires Unbroken(line)
    ensures Lines(line + [LF] + s) == [line] + Lines(s) && Rest(line + [LF] + s) == Rest(s)
  {
    FirstLf(line + [LF] + s, line, s);
  }

  lemma UnlinesCons(lines: seq<string>, tail: string)
    requires lines != []
    ensures Unlines(lines) + tail == lines[0] + [LF] + (Unlines(lines[1..]) + tail)
  {
  }

  lemma {:induction false} UnlinesLines(lines: seq<string>, tail: string)
    requires forall i :: 0 <= i < |lines| ==> Unbroken(lines[i])
    ensures Lines(Unlines(lines) + tail) == lines + Lines(tail)
    ensures Rest(Unlines(lines) + tail) == Rest(tail)
  {
    if lines == [] {
      assert Unlines(lines) + tail == tail;
    } else {
      UnlinesCons(lines, tail);
      LinesCons(lines[0], Unlines(lines[1..]) + tail);
      UnlinesLines(lines[1..], tail);
      HeadTail(lines, Lines(tail));
    }
  }

  lemma HeadTail<T>(s: seq<T>, t: seq<T>)
    requires s != []
    ensures [s[0]] + (s[1..] + t) == s + t
  {
  }

  /** A prefix of the text holds a prefix of the lines and then part of one line. */
  lemma {:induction false} UnlinesCut(lines: seq<string>, n: nat) returns (m: nat, part: string)
    requires n <= |Unlines(lines)| && forall i :: 0 <= i < |lines| ==> Unbroken(lines[i])
    ensures m <= |lines| && Unlines(lines)[..n] == Unlines(lines[..m]) + part && LF !in part
    ensures |Unlines(lines[..m])| <= n && (part != "" ==> m < |lines|)
    ensures m < |lines| ==> n < |Unlines(lines[..m + 1])|
    decreases |lines|
  {
    if lines == [] || n <= |lines[0]| {
      m, part := 0, Unlines(lines)[..n];
      if lines != [] {
        assert part == lines[0][..n];
        assert Unlines(lines[..1]) == lines[0] + [LF] + Unlines([]);
      }
    } else {
      var k := |lines[0]| + 1;
      var m', p := UnlinesCut(lines[1..], n - k);
      m, part := m' + 1, p;
      assert lines[..m][1..] == lines[1..][..m'];
      assert Unlines(lines)[..n] == lines[0] + [LF] + Unlines(lines[1..])[..n - k];
      if m < |lines| {
        assert lines[..m + 1][1..] == lines[1..][..m' + 1];
      }
    }
  }

  predicate LegalLog(log: seq<Record>, valueCount: nat) {
    valueCount > 0 && forall i :: 0 <= i < |log| ==> LegalRecord(log[i], valueCount)
  }

  lemma {:induction false} LinesOfAt(log: seq<Record>, valueCount: nat)
    requires LegalLog(log, valueCount)
    ensures |LinesOf(log)| == |log| && forall i :: 0 <= i < |log| ==> Unbroken(LinesOf(log)[i])
  {
    if log != [] {
      LinesOfAt(log[1..], valueCount);
      LineUnbroken(log[0], valueCount);
    }
  }

  lemma {:induction false} LinesRead(log: seq<Record>, valueCount: nat)
    requires LegalLog(log, valueCount)
    ensures ParseLines(LinesOf(log), valueCount) == Some(log)
  {
    if log != [] {
      LinesRead(log[1..], valueCount);
      LineRoundTrip(log[0], valueCount);
      ParseCons(Line(log[0]), LinesOf(log[1..]), valueCount);
      assert [log[0]] + log[1..] == log;
    }
  }

  lemma ParseCons(line: string, lines: seq<string>, valueCount: nat)
    requires ParseLine(line, valueCount).Some? && ParseLines(lines, valueCount).Some?
    ensures ParseLines([line] + lines, valueCount) == Some([ParseLine(line, valueCount).value] + ParseLines(lines, valueCount).value)
  {
    assert ([line] + lines)[1..] == lines;
  }

  lemma {:induction false} LinesTake(log: seq<Record>, m: nat)
    requires m <= |log| == |LinesOf(log)|
    ensures LinesOf(log)[..m] == LinesOf(log[..m])
  {
    if m > 0 {
      assert log[..m][1..] == log[1..][..m - 1];
      LinesTake(log[1..], m - 1);
      assert LinesOf(log)[..m] == [Line(log[0])] + LinesOf(log[1..])[..m - 1];
    }
  }

  lemma HeaderUnbroken(appVersion: int, valueCount: nat)
    requires Long(appVersion) && Long(valueCount)
    ensures forall i :: 0 <= i < 5 ==> Unbroken(HeaderLines(appVersion, valueCount)[i])
  {
    hide Decimal, ParseLong;
    assert Unbroken(Decimal(appVersion)) by { DecimalRead(appVersion); }
    assert Unbroken(Decimal(valueCount)) by { DecimalRead(valueCount); }
    assert Unbroken(MAGIC);
  }

  /** The records of a journal with a broken last line are the complete ones. */
  lemma JournalReadBack(log: seq<Record>, part: string, appVersion: int, valueCount: nat)
    requires LegalLog(log, valueCount) && Long(appVersion) && Long(valueCount) && LF !in part
    ensures ReadBack(JournalOf(log, appVersion, valueCount) + part, appVersion, valueCount) == Some(log)
    ensures Rest(JournalOf(log, appVersion, valueCount) + part) == part
  {
    var h, body := HeaderLines(appVersion, valueCount), LinesOf(log);
    HeaderUnbroken(appVersion, valueCount);
    LinesOfAt(log, valueCount);
    LinesRead(log, valueCount);
    assert JournalOf(log, appVersion, valueCount) + part == Unlines(h) + (Unlines(body) + part);
    UnlinesLines(h, Unlines(body) + part);
    UnlinesLines(body, part);
    NoIndex(part, LF, 0);
    assert Lines(part) == [] && Rest(part) == part;
    assert (h + (body + []))[..5] == h && (h + (body + []))[5..] == body;
  }

  lemma CutBehind(head: string, body: string, n: nat, kept: string, part: string)
    requires |head| <= n <= |head| + |body| && body[..n - |head|] == kept + part
    ensures (head + body)[..n] == (head + kept) + part
  {
    assert (head + body)[..n] == head + body[..n - |head|];
  }

  /** Cutting a journal anywhere after its header leaves a prefix of the records. */
  lemma JournalCut(log: seq<Record>, n: nat, appVersion: int, valueCount: nat) returns (m: nat, part: string)
    requires LegalLog(log, valueCount) && Long(appVersion) && Long(valueCount)
    requires |Header(appVersion, valueCount)| <= n <= |JournalOf(log, appVersion, valueCount)|
    ensures m <= |log| && ReadBack(JournalOf(log, appVersion, valueCount)[..n], appVersion, valueCount) == Some(log[..m])
    ensures JournalOf(log, appVersion, valueCount)[..n] == JournalOf(log[..m], appVersion, valueCount) + part && LF !in part
    ensures |JournalOf(log[..m], appVersion, valueCount)| <= n
    ensures m < |log| ==> n < |JournalOf(log[..m + 1], appVersion, valueCount)|
  {
    var head, body := Header(appVersion, valueCount), LinesOf(log);
    LinesOfAt(log, valueCount);
    m, part := UnlinesCut(body, n - |head|);
    LinesTake(log, m);
    if m < |log| {
      LinesTake(log, m + 1);
    }
    CutBehind(head, Unlines(body), n, Unlines(body[..m]), part);
    JournalReadBack(log[..m], part, appVersion, valueCount);
  }

  /** A journal cut inside its header is corrupt. */
  lemma HeaderCut(log: seq<Record>, n: nat, appVersion: int, valueCount: nat)
    requires Long(appVersion) && Long(valueCount) && n < |Header(appVersion, valueCount)|
    ensures ReadBack(JournalOf(log, appVersion, valueCount)[..n], appVersion, valueCount) == None
  {
    var h := HeaderLines(appVersion, valueCount);
    HeaderUnbroken(appVersion, valueCount);
    var m, part := UnlinesCut(h, n);
    assert JournalOf(log, appVersion, valueCount)[..n] == Unlines(h)[..n];
    assert h[..5] == h;
    UnlinesLines(h[..m], part);
    NoIndex(part, LF, 0);
  }

  // ----- a known journal -----

  /** The records of the typical journal, for three keys. */
  function TypicalLog(a: string, b: string, c: string): seq<Record> {
    [Clean(a, [832, 21054]), Dirty(b), Clean(b, [3934, 2342]), Remove(b),
     Dirty(c), Clean(c, [1600, 234]), JournalText.Read(b), JournalText.Read(a)]
  }

  function TypicalLines(a: string, b: string, c: string): seq<string> {
    ["CLEAN " + a + " 832 21054", "DIRTY " + b, "CLEAN " + b + " 3934 2342", "REMOVE " + b,
     "DIRTY " + c, "CLEAN " + c + " 1600 234", "READ " + b, "READ " + a]
  }

  /** The typical journal, for application version 100 and two values per entry: a header of five lines,
      and one line for every record. */
  lemma TypicalJournal(a: string, b: string, c: string)
    ensures JournalOf(TypicalLog(a, b, c), 100, 2) == Unlines(["libcore.io.DiskLruCache", "1", "100", "2", ""] + TypicalLines(a, b, c))
    ensures Unlines(["x", "y"]) == "x\ny\n"
  {
    TypicalHeader();
    hide Unlines, LinesOf, HeaderLines;
    TypicalLinesOf(a, b, c);
    UnlinesConcat(["libcore.io.DiskLruCache", "1", "100", "2", ""], TypicalLines(a, b, c));
  }

  lemma TypicalHeader()
    ensures HeaderLines(100, 2) == ["libcore.io.DiskLruCache", "1", "100", "2", ""] && Unlines(["x", "y"]) == "x\ny\n"
  {
    assert Digits(1) == "1" && Digits(10) == "10" && Digits(100) == "100" && Digits(2) == "2";
    assert Decimal(100) == "100" && Decimal(2) == "2";
    assert Unlines(["y"]) == "y\n" && ["x", "y"][1..] == ["y"];
  }

  lemma {:induction false} UnlinesConcat(a: seq<string>, b: seq<string>)
    ensures Unlines(a + b) == Unlines(a) + Unlines(b)
  {
    if a == [] {
      assert a + b == b;
    } else {
      UnlinesConcat(a[1..], b);
      assert (a + b)[1..] == a[1..] + b && (a + b)[0] == a[0];
      Assoc(a[0] + [LF], Unlines(a[1..]), Unlines(b));
    }
  }

  /** What opening finds in it: two published entries, and one that has only been read. */
  lemma TypicalReplay(a: string, b: string, c: string)
    requires a != b && b != c && c != a
    ensures Replay(TypicalLog(a, b, c), 2) == map[
      a := Slot(true, false, [832, 21054]), c := Slot(true, false, [1600, 234]), b := Slot(false, false, [0, 0])]
  {
    var log := TypicalLog(a, b, c);
    var one, two, three := Slot(true, false, [832, 21054]), Slot(true, false, [3934, 2342]), Slot(true, false, [1600, 234]);
    hide Replay;
    assert Zeros(2) == [0, 0];
    assert Replay(log[..0], 2) == map[] by { ReplayAt(log, 0, 2); }
    ReplayAt(log, 0, 2);
    assert Replay(log[..1], 2) == map[a := one];
    ReplayAt(log, 1, 2);
    ReplayAt(log, 2, 2);
    assert Replay(log[..3], 2) == map[a := one, b := two];
    ReplayAt(log, 3, 2);
    assert Replay(log[..4], 2) == map[a := one];
    ReplayAt(log, 4, 2);
    ReplayAt(log, 5, 2);
    assert Replay(log[..6], 2) == map[a := one, c := three];
    ReplayAt(log, 6, 2);
    ReplayAt(log, 7, 2);
    assert log[..8] == log;
  }

  lemma ReplayAt(log: seq<Record>, k: nat, valueCount: nat)
    requires k < |log|
    ensures Replay(log[..k + 1], valueCount) == Apply(Replay(log[..k], valueCount), log[k], valueCount) && Replay(log[..0], valueCount) == map[]
  {
    assert log[..k + 1][..k] == log[..k];
  }

  lemma TypicalDecimals()
    ensures Decimal(832) == "832" && Decimal(21054) == "21054" && Decimal(1600) == "1600" && Decimal(234) == "234"
    ensures Decimal(3934) == "3934" && Decimal(2342) == "2342"
  {
    assert Digits(83) == "83" && Digits(16) == "16" && Digits(160) == "160" && Digits(23) == "23" && Digits(234) == "234";
    assert Digits(21) == "21" && Digits(210) == "210" && Digits(2105) == "2105";
    assert Digits(39) == "39" && Digits(393) == "393";
  }

  lemma TwoLengths(key: string, a: int, b: int, text: string)
    requires text == " " + Decimal(a) + (" " + Decimal(b))
    ensures Line(Clean(key, [a, b])) == "CLEAN " + key + text
  {
    hide Decimal;
    assert [a, b][1..] == [b] && [b][1..] == [];
    assert Lengths([b]) == " " + Decimal(b) + "";
  }

  lemma TypicalLinesOf(a: string, b: string, c: string)
    ensures LinesOf(TypicalLog(a, b, c)) == TypicalLines(a, b, c)
  {
    TypicalDecimals();
    hide Decimal, Line, LinesOf;
    TwoLengths(a, 832, 21054, " 832 21054");
    TwoLengths(b, 3934, 2342, " 3934 2342");
    TwoLengths(c, 1600, 234, " 1600 234");
    OneWord(a);
    OneWord(b);
    OneWord(c);
    LinesAt(TypicalLog(a, b, c));
  }

  lemma OneWord(key: string)
    ensures Line(Dirty(key)) == "DIRTY " + key && Line(Remove(key)) == "REMOVE " + key && Line(JournalText.Read(key)) == "READ " + key
  {
  }

  lemma {:induction false} LinesAt(log: seq<Record>)
    ensures |LinesOf(log)| == |log| && forall i :: 0 <= i < |log| ==> LinesOf(log)[i] == Line(log[i])
  {
    hide Line;
    if log != [] {
      LinesAt(log[1..]);
    }
  }
}

/** The journal's text: one line per record, and the reading of a line as the cache does it. */
module JournalText {
  import opened Basics

  datatype Record =
    | Clean(key: string, lengths: seq<int>)
    | Dirty(key: string)
    | Remove(key: string)
    | Read(key: string)

  // ----- keys and numbers -----

  predicate KeyChar(c: char) {
    'a' <= c <= 'z' || '0' <= c <= '9' || c == '_' || c == '-'
  }

  /** The pattern [a-z0-9_-]{1,120}. */
  predicate LegalKey(key: string) {
    1 <= |key| <= 120 && forall i :: 0 <= i < |key| ==> KeyChar(key[i])
  }

  const KEY_CHARS := "abcdefghijklmnopqrstuvwxyz0123456789_-"

  /** A key is 1 to 120 of these characters. */
  lemma LegalKeyExactly(key: string)
    ensures LegalKey(key) <==> key != "" && |key| < 121 && forall c :: c in key ==> c in "abcdefghijklmnopqrstuvwxyz0123456789_-"
  {
    forall c | c in key
      ensures KeyChar(c) <==> c in KEY_CHARS
    {
      KeyCharExactly(c);
    }
  }

  lemma KeyCharExactly(c: char)
    ensures KeyChar(c) <==> c in KEY_CHARS
  {
    var n := c as int;
    if KeyChar(c) {
      var i := if c == '_' then 36 else if c == '-' then 37 else if n >= 97 then n - 97 else n - 48 + 26;
      KeyCharAt(i);
      assert KEY_CHARS[i] == c;
    } else if c in KEY_CHARS {
      var i :| 0 <= i < |KEY_CHARS| && KEY_CHARS[i] == c;
      KeyCharAt(i);
    }
  }

  lemma KeyCharAt(i: nat)
    requires i < |KEY_CHARS|
    ensures KEY_CHARS[i] as int == if i < 26 then i + 97 else if i < 36 then i - 26 + 48 else if i == 36 then 95 else 45
  {
  }

  function Digit(d: nat): char
    requires d < 10
  {
    '0' + d as char
  }

  function Digits(n: nat): (s: string)
    ensures |s| > 0 && forall i :: 0 <= i < |s| ==> IsDigit(s[i])
  {
    if n < 10 then [Digit(n)] else Digits(n / 10) + [Digit(n % 10)]
  }

  /** How a long is appended to a StringBuilder. */
  function Decimal(n: int): string {
    if n < 0 then "-" + Digits(-n) else Digits(n)
  }

  function DigitsValue(s: string): Option<nat>
    requires |s| > 0
  {
    var d := s[|s| - 1];
    if !IsDigit(d) then None
    else if |s| == 1 then Some(d as int - '0' as int)
    else match DigitsValue(s[..|s| - 1])
      case None => None
      case Some(v) => Some(10 * v + (d as int - '0' as int))
  }

  /** Long.parseLong: an optional sign, at least one digit, and a value that fits. */
  function ParseLong(s: string): Option<int> {
    var signed := |s| > 0 && (s[0] == '-' || s[0] == '+');
    var digits := if signed then s[1..] else s;
    if digits == "" then None
    else match DigitsValue(digits)
      case None => None
      case Some(v) =>
        var m: int := v;
        var n := if signed && s[0] == '-' then -m else m;
        if Long(n) then Some(n) else None
  }

  lemma {:induction false} DigitsRead(n: nat)
    ensures DigitsValue(Digits(n)) == Some(n)
  {
    if n >= 10 {
      DigitsRead(n / 10);
      var s := Digits(n);
      assert s[..|s| - 1] == Digits(n / 10);
    }
  }

  lemma DecimalRead(n: int)
    requires Long(n)
    ensures ParseLong(Decimal(n)) == Some(n)
    ensures |Decimal(n)| > 0 && ' ' !in Decimal(n) && '\n' !in Decimal(n) && '\r' !in Decimal(n)
  {
    var v := if n < 0 then -n else n;
    DigitsRead(v);
    if n < 0 {
      assert Decimal(n)[1..] == Digits(v);
    }
  }

  // ----- lines -----

  function Tag(r: Record): string {
    match r
    case Clean(_, _) => "CLEAN"
    case Dirty(_) => "DIRTY"
    case Remove(_) => "REMOVE"
    case Read(_) => "READ"
  }

  function Tail(r: Record): string {
    if r.Clean? then Lengths(r.lengths) else ""
  }

  /** The text of a record, without the line feed. */
  function Line(r: Record): string {
    Tag(r) + " " + r.key + Tail(r)
  }

  function Lengths(ls: seq<int>): string {
    if ls == [] then "" else " " + Decimal(ls[0]) + Lengths(ls[1..])
  }

  function Pieces(s: string): (ps: seq<string>)
    ensures |ps| > 0
    decreases |s|
  {
    var i := IndexOf(s, ' ', 0);
    if i == -1 then [s] else [s[..i]] + Pieces(s[i + 1..])
  }

  function DropEmptyEnd(ps: seq<string>): seq<string> {
    if ps != [] && ps[|ps| - 1] == "" then DropEmptyEnd(ps[..|ps| - 1]) else ps
  }

  /** String.split(" "): trailing empty pieces are dropped, unless there is no separator at all. */
  function Split(s: string): seq<string> {
    if IndexOf(s, ' ', 0) == -1 then [s] else DropEmptyEnd(Pieces(s))
  }

  function ParseLongs(ps: seq<string>): Option<seq<int>> {
    if ps == [] then Some([])
    else match ParseLong(ps[0])
      case None => None
      case Some(n) => match ParseLongs(ps[1..])
        case None => None
        case Some(ns) => Some([n] + ns)
  }

  predicate StartsWith(s: string, p: string) {
    |p| <= |s| && s[..|p|] == p
  }

  /** What one journal line says; None where the cache calls the journal corrupt. */
  function ParseLine(line: string, valueCount: nat): Option<Record> {
    var firstSpace := IndexOf(line, ' ', 0);
    if firstSpace == -1 then None
    else
      var secondSpace := IndexOf(line, ' ', firstSpace + 1);
      if secondSpace == -1 then
        var key := line[firstSpace + 1..];
        if firstSpace == 6 && StartsWith(line, "REMOVE") then Some(Remove(key))
        else if firstSpace == 5 && StartsWith(line, "DIRTY") then Some(Dirty(key))
        else if firstSpace == 4 && StartsWith(line, "READ") then Some(Read(key))
        else None
      else
        var key := line[firstSpace + 1..secondSpace];
        if firstSpace == 5 && StartsWith(line, "CLEAN") then
          var parts := Split(line[secondSpace + 1..]);
          if |parts| != valueCount then None
          else match ParseLongs(parts)
            case None => None
            case Some(ls) => Some(Clean(key, ls))
        else None
  }

  /** A length of a file that fits a long. */
  predicate FileLength(n: int) {
    0 <= n && Long(n)
  }

  /** What the cache writes: a legal key and one length per value. */
  predicate LegalRecord(r: Record, valueCount: nat) {
    LegalKey(r.key) && (r.Clean? ==> |r.lengths| == valueCount && forall i :: 0 <= i < valueCount ==> FileLength(r.lengths[i]))
  }

  function Decimals(ls: seq<int>): seq<string> {
    if ls == [] then [] else [Decimal(ls[0])] + Decimals(ls[1..])
  }

  lemma FirstPiece(d: string, t: string)
    requires ' ' !in d && (t == "" || t[0] == ' ')
    ensures IndexOf(d + t, ' ', 0) == if t == "" then -1 else |d|
    ensures Pieces(d + t) == if t == "" then [d] else [d] + Pieces(t[1..])
  {
    var s := d + t;
    assert forall j :: 0 <= j < |d| ==> s[j] == d[j];
    IndexOfAt(s, ' ', 0, |d|);
    assert s[..|d|] == d;
    if t == "" {
      assert s == d;
    } else {
      assert s[|d|] == ' ' && s[|d| + 1..] == t[1..];
    }
  }

  lemma LengthsHead(ls: seq<int>)
    requires ls != []
    ensures Lengths(ls)[1..] == Decimal(ls[0]) + Lengths(ls[1..])
  {
    hide Decimal;
    assert Lengths(ls) == [' '] + (Decimal(ls[0]) + Lengths(ls[1..]));
  }

  lemma {:induction false} LengthsSplit(ls: seq<int>)
    requires ls != [] && forall i :: 0 <= i < |ls| ==> Long(ls[i])
    ensures Pieces(Lengths(ls)[1..]) == Decimals(ls)
    ensures IndexOf(Lengths(ls)[1..], ' ', 0) == -1 <==> |ls| == 1
  {
    var d, t := Decimal(ls[0]), Lengths(ls[1..]);
    LengthsHead(ls);
    assert ' ' !in d by { DecimalRead(ls[0]); }
    FirstPiece(d, t);
    if |ls| > 1 {
      LengthsSplit(ls[1..]);
    }
  }

  lemma {:induction false} DecimalsRead(ls: seq<int>)
    requires forall i :: 0 <= i < |ls| ==> Long(ls[i])
    ensures ParseLongs(Decimals(ls)) == Some(ls) && |Decimals(ls)| == |ls|
    ensures ls != [] ==> Decimals(ls)[|ls| - 1] != ""
  {
    if ls != [] {
      DecimalRead(ls[0]);
      DecimalsRead(ls[1..]);
      assert [ls[0]] + ls[1..] == ls;
    }
  }

  lemma {:induction false} NoBreaks(ls: seq<int>)
    requires forall i :: 0 <= i < |ls| ==> Long(ls[i])
    ensures '\n' !in Lengths(ls) && '\r' !in Lengths(ls)
  {
    if ls != [] {
      DecimalRead(ls[0]);
      NoBreaks(ls[1..]);
    }
  }

  lemma LineParts(tag: string, key: string, tail: string)
    requires ' ' !in tag && ' ' !in key && (tail == "" || tail[0] == ' ')
    ensures var line, at := tag + " " + key + tail, |tag| + 1 + |key|;
      && IndexOf(line, ' ', 0) == |tag| && StartsWith(line, tag)
      && IndexOf(line, ' ', |tag| + 1) == (if tail == "" then -1 else at)
      && |line| >= at && line[|tag| + 1..at] == key && (tail != "" ==> line[at + 1..] == tail[1..])
      && (tail == "" ==> line[|tag| + 1..] == key)
  {
    var line, at := tag + " " + key + tail, |tag| + 1 + |key|;
    assert line[|tag|] == ' ';
    assert forall j :: 0 <= j < |tag| ==> line[j] == tag[j];
    IndexOfAt(line, ' ', 0, |tag|);
    assert forall j :: |tag| + 1 <= j < at ==> line[j] == key[j - |tag| - 1];
    assert tail != "" ==> line[at] == tail[0];
    IndexOfAt(line, ' ', |tag| + 1, at);
    assert line[|tag| + 1..at] == key;
  }

  lemma LengthsParse(ls: seq<int>)
    requires ls != [] && forall i :: 0 <= i < |ls| ==> Long(ls[i])
    ensures |Split(Lengths(ls)[1..])| == |ls| && ParseLongs(Split(Lengths(ls)[1..])) == Some(ls)
  {
    LengthsSplit(ls);
    DecimalsRead(ls);
  }

  /** Reading a line depends on its parts only. */
  lemma ParseByParts(line: string, r: Record, valueCount: nat)
    requires IndexOf(line, ' ', 0) == |Tag(r)| && StartsWith(line, Tag(r))
    requires var at := |Tag(r)| + 1 + |r.key|;
      && IndexOf(line, ' ', |Tag(r)| + 1) == (if r.Clean? then at else -1)
      && |line| >= at && line[|Tag(r)| + 1..at] == r.key && (!r.Clean? ==> line[|Tag(r)| + 1..] == r.key)
      && (r.Clean? ==> |Split(line[at + 1..])| == valueCount && ParseLongs(Split(line[at + 1..])) == Some(r.lengths))
    ensures ParseLine(line, valueCount) == Some(r)
  {
  }

  /** Reading a written line gives the record back. */
  lemma LineRoundTrip(r: Record, valueCount: nat)
    requires valueCount > 0 && LegalRecord(r, valueCount)
    ensures ParseLine(Line(r), valueCount) == Some(r)
  {
    LineParts(Tag(r), r.key, Tail(r));
    if r.Clean? {
      LengthsParse(r.lengths);
    }
    ParseByParts(Line(r), r, valueCount);
  }

  /** A written line holds no line feed and no carriage return. */
  lemma LineUnbroken(r: Record, valueCount: nat)
    requires LegalRecord(r, valueCount)
    ensures '\n' !in Line(r) && '\r' !in Line(r)
  {
    if r.Clean? {
      NoBreaks(r.lengths);
    }
    assert '\n' !in r.key && '\r' !in r.key;
    hide Lengths, LegalKey;
    assert '\n' !in Tag(r) && '\r' !in Tag(r);
  }

  // ----- which lines are read at all -----

  /** The line is a word, one space and a key without one; or CLEAN, the key, and behind another space as
      many numbers as there are values. */
  ghost predicate Says(line: string, r: Record, valueCount: nat) {
    ' ' !in r.key && match r
    case Dirty(key) => line == "DIRTY " + key
    case Remove(key) => line == "REMOVE " + key
    case Read(key) => line == "READ " + key
    case Clean(key, lengths) => exists rest: string :: CleanLine(line, key, rest, lengths, valueCount)
  }

  ghost predicate CleanLine(line: string, key: string, rest: string, lengths: seq<int>, valueCount: nat) {
    line == "CLEAN " + key + " " + rest && |Split(rest)| == valueCount && ParseLongs(Split(rest)) == Some(lengths)
  }

  /** Exactly those lines are read, and as what they say; every other line is corrupt. */
  lemma LineExactly(line: string, r: Record, valueCount: nat)
    ensures ParseLine(line, valueCount) == Some(r) <==> Says(line, r, valueCount)
  {
    if ParseLine(line, valueCount) == Some(r) {
      LineTaken(line, valueCount);
    }
    if Says(line, r, valueCount) {
      SaidTaken(line, r, valueCount);
    }
  }

  lemma SaidTaken(line: string, r: Record, valueCount: nat)
    requires Says(line, r, valueCount)
    ensures ParseLine(line, valueCount) == Some(r)
  {
    TagsSpaced();
    NoSpace(Tag(r));
    if r.Clean? {
      SaidClean(line, r, valueCount);
    } else {
      hide IndexOf, Split, ParseLongs, ParseLine, StartsWith;
      var text := Tag(r) + " " + r.key;
      assert line == text;
      assert text + "" == text;
      LineParts(Tag(r), r.key, "");
      ParseByParts(line, r, valueCount);
    }
  }

  lemma SaidClean(line: string, r: Record, valueCount: nat)
    requires r.Clean? && Says(line, r, valueCount) && ' ' !in Tag(r) && "CLEAN" + " " == "CLEAN "
    ensures ParseLine(line, valueCount) == Some(r)
  {
    hide IndexOf, Split, ParseLongs, ParseLine, StartsWith;
    var rest: string :| CleanLine(line, r.key, rest, r.lengths, valueCount);
    Assoc(Tag(r) + " " + r.key, " ", rest);
    LineParts(Tag(r), r.key, " " + rest);
    assert (" " + rest)[1..] == rest;
    ParseByParts(line, r, valueCount);
  }

  lemma TagsSpaced()
    ensures "CLEAN" + " " == "CLEAN " && "DIRTY" + " " == "DIRTY " && "REMOVE" + " " == "REMOVE " && "READ" + " " == "READ "
  {
  }

  lemma NoSpace(tag: string)
    requires tag == "CLEAN" || tag == "DIRTY" || tag == "REMOVE" || tag == "READ"
    ensures ' ' !in tag
  {
  }

  lemma LineTaken(line: string, valueCount: nat)
    requires ParseLine(line, valueCount).Some?
    ensures Says(line, ParseLine(line, valueCount).value, valueCount)
  {
    var r := ParseLine(line, valueCount).value;
    TagTaken(line, valueCount);
    Cut(line, Tag(r));
    TagsSpaced();
    hide IndexOf, Split, ParseLongs, ParseLine, StartsWith;
    if r.Clean? {
      var rest := line[IndexOf(line, ' ', 6) + 1..];
      assert CleanLine(line, r.key, rest, r.lengths, valueCount);
    }
  }

  /** Where the word, the key and the numbers of a line that is read are found. */
  lemma TagTaken(line: string, valueCount: nat)
    requires ParseLine(line, valueCount).Some?
    ensures var r := ParseLine(line, valueCount).value; var i := |Tag(r)| + 1; var j := IndexOf(line, ' ', i);
      && IndexOf(line, ' ', 0) == |Tag(r)| && StartsWith(line, Tag(r)) && (j == -1 <==> !r.Clean?)
      && if r.Clean? then r.key == line[i..j] && |Split(line[j + 1..])| == valueCount && ParseLongs(Split(line[j + 1..])) == Some(r.lengths)
         else r.key == line[i..]
  {
    hide IndexOf, Split, ParseLongs, StartsWith;
  }

  /** A line behind its first word. */
  lemma Cut(line: string, tag: string)
    requires IndexOf(line, ' ', 0) == |tag| && StartsWith(line, tag)
    ensures var i, j := |tag| + 1, IndexOf(line, ' ', |tag| + 1);
      i <= |line| && if j == -1 then line == tag + " " + line[i..] && ' ' !in line[i..]
      else line == tag + " " + line[i..j] + " " + line[j + 1..] && ' ' !in line[i..j]
  {
    var i, j := |tag| + 1, IndexOf(line, ' ', |tag| + 1);
    SpaceAt(line, 0);
    SpaceAt(line, i);
    hide IndexOf;
    Glued(line, 0, |tag|);
    if j != -1 {
      Glued(line, i, j);
      Joined(line, tag, line[i..], line[i..j], line[j + 1..]);
    }
  }

  lemma Glued(line: string, i: nat, j: nat)
    requires i <= j < |line| && line[j] == ' '
    ensures line[i..] == line[i..j] + " " + line[j + 1..]
  {
  }

  lemma Joined(line: string, tag: string, behind: string, key: string, rest: string)
    requires line == tag + " " + behind && behind == key + " " + rest
    ensures line == tag + " " + key + " " + rest
  {
  }

  lemma {:induction false} SpaceAt(s: string, from: nat)
    ensures var i := IndexOf(s, ' ', from);
      if i == -1 then forall j :: from <= j < |s| ==> s[j] != ' ' else s[i] == ' ' && forall j :: from <= j < i ==> s[j] != ' '
    decreases |s| - from
  {
    if from < |s| {
      SpaceAt(s, from + 1);
    }
  }

  /** Pieces as Java has them: empty ones at the end do not count, but a text without a space is its only
      piece, empty or not. */
  lemma SplitPair(d: string, e: string)
    requires ' ' !in d && ' ' !in e
    ensures Split(d) == [d] && Split(d + " " + e) == if e != "" then [d, e] else if d != "" then [d] else []
  {
    hide IndexOf, Pieces, DropEmptyEnd;
    assert d + "" == d && e + "" == e && d + (" " + e) == d + " " + e && (" " + e)[1..] == e;
    FirstPiece(d, "");
    FirstPiece(e, "");
    FirstPiece(d, " " + e);
    PairEnd(d, e);
  }

  lemma PairEnd(d: string, e: string)
    ensures DropEmptyEnd([d] + [e]) == if e != "" then [d, e] else if d != "" then [d] else []
  {
    assert [d] + [e] == [d, e];
    assert [d, e][..1] == [d] && [d][..0] == [];
    assert DropEmptyEnd([]) == [] && DropEmptyEnd([d]) == if d == "" then [] else [d];
  }

  /** A number may have a sign, but must have a digit, and fit a long. */
  lemma KnownLongs()
    ensures ParseLong("+5") == Some(5) && ParseLong("-5") == Some(-5) && ParseLong("") == ParseLong("-") == ParseLong("x") == None
    ensures ParseLong(Decimal(LONG_MAX + 1)) == None
  {
    assert "+5"[1..] == "5" && "-5"[1..] == "5" && "-"[1..] == "";
    DigitsRead(LONG_MAX + 1);
    hide Digits;
  }
}

/** The buffered line reader. US-ASCII is modelled as one char per byte. */
module LineReader {
  import opened Basics

  // ----- what the lines of a text are -----

  const LF := '\n'
  const CR := '\r'

  function StripCr(s: string): string {
    if |s| > 0 && s[|s| - 1] == CR then s[..|s| - 1] else s
  }

  /** The complete lines of a text, each ended by LF or CR LF. */
  function Lines(s: string): seq<string>
    decreases |s|
  {
    var i := IndexOf(s, LF, 0);
    if i == -1 then [] else [StripCr(s[..i])] + Lines(s[i + 1..])
  }

  /** What follows the last LF. */
  function Rest(s: string): string
    decreases |s|
  {
    var i := IndexOf(s, LF, 0);
    if i == -1 then s else Rest(s[i + 1..])
  }

  lemma {:induction false} RestUnbroken(s: string)
    ensures LF !in Rest(s) && |Rest(s)| <= |s| && Rest(s) == s[|s| - |Rest(s)|..]
    decreases |s|
  {
    hide IndexOf;
    var i := IndexOf(s, LF, 0);
    if i == -1 {
      NoIndex(s, LF, 0);
    } else {
      var k := |Rest(s[i + 1..])|;
      RestUnbroken(s[i + 1..]);
      assert s[i + 1..][|s| - i - 1 - k..] == s[|s| - k..];
    }
  }

  lemma {:induction false} NoIndex(s: string, c: char, from: nat)
    ensures IndexOf(s, c, from) == -1 <==> forall j :: from <= j < |s| ==> s[j] != c
    decreases |s| - from
  {
    if from < |s| {
      NoIndex(s, c, from + 1);
    }
  }

  lemma FirstLf(s: string, a: string, b: string)
    requires s == a + [LF] + b && LF !in a
    ensures IndexOf(s, LF, 0) == |a| && s[..|a|] == a && s[|a| + 1..] == b
  {
    assert s[|a|] == LF;
    assert forall j :: 0 <= j < |a| ==> s[j] == a[j];
    IndexOfAt(s, LF, 0, |a|);
  }

  /** A line ends with a line feed, or with a carriage return and a line feed, of which neither belongs to
      it; any other carriage return does. What has no line feed is no line. */
  lemma LinesExactly(a: string, b: string)
    requires '\n' !in a
    ensures Lines(a + "\r\n" + b) == [a] + Lines(b) && Rest(a + "\r\n" + b) == Rest(b)
    ensures a == "" || a[|a| - 1] != '\r' ==> Lines(a + "\n" + b) == [a] + Lines(b)
    ensures Rest(a + "\n" + b) == Rest(b) && Lines(a) == [] && Rest(a) == a
  {
    var c := a + "\r";
    assert a + "\r\n" + b == c + [LF] + b && c[..|a|] == a;
    assert a + "\n" + b == a + [LF] + b;
    FirstLf(a + "\r\n" + b, c, b);
    FirstLf(a + "\n" + b, a, b);
    NoIndex(a, LF, 0);
  }

  /** What one call delivers from `s`, leaving `left`. */
  ghost predicate Delivered(s: string, line: Option<string>, left: string) {
    match IndexOf(s, LF, 0)
    case -1 => line == None && left == ""
    case i => line == Some(StripCr(s[..i])) && left == s[i + 1..]
  }

  lemma SplitChunk(s: string, out: string, a: string, b: string, chunk: string, data: string)
    requires s == out + (chunk + data) && chunk == a + [LF] + b && LF !in out && LF !in a
    ensures Delivered(s, Some(StripCr(out + a)), b + data) && (a == "" ==> out + a == out)
  {
    assert s == (out + a) + [LF] + (b + data);
    FirstLf(s, out + a, b + data);
  }

  lemma FirstInChunk(chunk: string, k: nat, data: string)
    requires k < |chunk| && chunk[k] == LF && LF !in chunk[..k]
    ensures var e := if k != 0 && chunk[k - 1] == CR then k - 1 else k;
      Delivered(chunk + data, Some(chunk[..e]), chunk[k + 1..] + data)
  {
    var s := chunk + data;
    assert s == chunk[..k] + [LF] + (chunk[k + 1..] + data);
    FirstLf(s, chunk[..k], chunk[k + 1..] + data);
    assert k > 0 ==> chunk[..k][..k - 1] == chunk[..k - 1];
  }

  // ----- the input -----

  /** A stream that hands out its bytes in chunks of its own choice; asked for none, it hands out none. */
  class InputStream {
    var data: string

    constructor (data: string)
      ensures this.data == data
    {
      this.data := data;
    }

    method Read(buf: array<char>) returns (n: int)
      modifies this, buf
      ensures buf.Length == 0 ==> n == 0 && data == old(data)
      ensures buf.Length > 0 && old(data) == "" ==> n == -1 && data == "" && buf[..] == old(buf[..])
      ensures buf.Length > 0 && old(data) != "" ==> 1 <= n <= buf.Length && n <= |old(data)| && buf[..n] + data == old(data)
    {
      if buf.Length == 0 {
        return 0;
      }
      if data == "" {
        return -1;
      }
      n :| 1 <= n <= buf.Length && n <= |data|;
      forall i | 0 <= i < n {
        buf[i] := data[i];
      }
      data := data[n..];
    }
  }

  // ----- when the search for the end of a line comes to an end -----

  /** The loop of readLine: what it has collected, what is buffered, and what the stream still has. */
  datatype Search = Search(out: string, chunk: string, data: string)

  /** A round that collects the buffered bytes and refills the buffer. */
  predicate Refills(s: Search, s': Search, capacity: nat) {
    s'.out == s.out + s.chunk && s.data == s'.chunk + s'.data && |s'.chunk| <= capacity && (capacity > 0 ==> s'.chunk != "")
  }

  /** Rounds of which none finds the end of the line. */
  ghost predicate SearchRounds(rounds: seq<Search>, s: Search, capacity: nat) {
    && rounds != [] && rounds[0] == s
    && forall i :: 0 < i < |rounds| ==> Refills(rounds[i - 1], rounds[i], capacity) && LF !in rounds[i].chunk
  }

  lemma {:induction false} RoundsUseData(rounds: seq<Search>, s: Search, capacity: nat, n: nat)
    requires SearchRounds(rounds, s, capacity) && capacity > 0 && n < |rounds|
    ensures |rounds[n].data| + n <= |s.data|
  {
    if n > 0 {
      RoundsUseData(rounds, s, capacity, n - 1);
      assert Refills(rounds[n - 1], rounds[n], capacity);
    }
  }

  ghost predicate Bounded(s: Search, capacity: nat, bound: nat) {
    forall rounds :: SearchRounds(rounds, s, capacity) ==> |rounds| <= bound
  }

  lemma EndlessRounds(s: Search, bound: nat)
    ensures !Bounded(s, 0, bound)
  {
    var rounds := [s] + seq(bound, _ => Search(s.out + s.chunk, "", s.data));
    forall i | 0 < i < |rounds|
      ensures Refills(rounds[i - 1], rounds[i], 0) && LF !in rounds[i].chunk
    {
      assert rounds[i] == Search(s.out + s.chunk, "", s.data);
      assert i > 1 ==> rounds[i - 1] == rounds[i];
    }
    assert SearchRounds(rounds, s, 0);
  }

  /** With any capacity but 0, the loop ends for every stream; with capacity 0, it goes on for as many
      rounds as one likes. */
  lemma SearchEnds(s: Search, capacity: nat)
    ensures (exists bound: nat :: Bounded(s, capacity, bound)) <==> capacity > 0
  {
    if capacity > 0 {
      forall rounds | SearchRounds(rounds, s, capacity)
        ensures |rounds| <= |s.data| + 1
      {
        RoundsUseData(rounds, s, capacity, |rounds| - 1);
      }
      assert Bounded(s, capacity, |s.data| + 1);
    } else {
      forall bound: nat
        ensures !Bounded(s, capacity, bound)
      {
        EndlessRounds(s, bound);
      }
    }
  }

  /** What the documentation says of the second argument. */
  predicate DocumentedIllegal(capacity: int) {
    capacity <= 0
  }

  class StrictLineReader {
    const input: InputStream
    const buf: array<char>
    var pos: int
    var end: int

    ghost predicate Valid()
      reads this, input
    {
      0 <= pos && (if end == -1 then input.data == "" else pos <= end <= buf.Length)
    }

    /** The bytes that no line has delivered yet. */
    ghost function Pending(): string
      requires Valid()
      reads this, input, buf
    {
      (if end == -1 then "" else buf[pos..end]) + input.data
    }

    constructor (input: InputStream, capacity: nat)
      ensures Valid() && Pending() == input.data && !HasUnterminatedLine()
      ensures this.input == input && fresh(buf) && buf.Length == capacity
    {
      this.input := input;
      buf := new char[capacity];
      pos, end := 0, 0;
    }

    /** The constructor with its check; None where it throws. That is what is documented for every
        capacity but 0. */
    static method Create(input: InputStream, capacity: int) returns (reader: Option<StrictLineReader>)
      ensures reader == None <==> capacity < 0
      ensures (reader == None <==> DocumentedIllegal(capacity)) <==> capacity != 0
      ensures reader.Some? ==>
        reader.value.Valid() && reader.value.Pending() == input.data && reader.value.input == input && fresh(reader.value) && fresh(reader.value.buf)
    {
      if capacity < 0 {
        return None;
      }
      var r := new StrictLineReader(input, capacity);
      return Some(r);
    }

    predicate HasUnterminatedLine()
      reads this
    {
      end == -1
    }

    /** A refill; with capacity 0 it gets nothing, and does not mark the end either. */
    method FillBuf() returns (ok: bool)
      modifies this, input, buf
      ensures ok <==> buf.Length == 0 || old(input.data) != ""
      ensures ok ==> Valid() && pos == 0 && (0 < end <==> buf.Length > 0) && end != -1 && buf[pos..end] + input.data == old(input.data)
      ensures !ok ==> pos == old(pos) && end == old(end) && input.data == "" && buf[..] == old(buf[..])
    {
      var result := input.Read(buf);
      if result == -1 {
        return false;
      }
      pos := 0;
      end := result;
      return true;
    }

    /** The position of the first LF in the buffered data, or `end`. */
    method FindLf() returns (i: int)
      requires Valid() && end != -1
      ensures pos <= i <= end && LF !in buf[pos..i] && (i < end ==> buf[i] == LF && LF !in buf[pos..end][..i - pos])
    {
      i := pos;
      while i != end
        invariant pos <= i <= end && LF !in buf[pos..i]
      {
        if buf[i] == LF {
          assert buf[pos..end][..i - pos] == buf[pos..i];
          return;
        }
        i := i + 1;
      }
    }

    /** The next line, or None at the end of the stream. With capacity 0 it would not return
        (SearchEnds). */
    method ReadLine() returns (line: Option<string>)
      requires Valid() && buf.Length > 0
      modifies this, input, buf
      ensures Valid()
      ensures Delivered(old(Pending()), line, Pending())
      ensures HasUnterminatedLine() <==> line == None && (old(Pending()) != "" || old(HasUnterminatedLine()))
    {
      if pos >= end {
        assert Pending() == input.data;
        var ok := FillBuf();
        if !ok {
          assert Pending() == "";
          return None;
        }
      }
      assert Pending() == old(Pending());
      var i := FindLf();
      if i == end {
        line := ReadLongLine();
        return;
      }
      var taken := TakeLine(i);
      line := Some(taken);
    }

    /** The line ends at `i` in the buffered data. */
    method TakeLine(i: int) returns (line: string)
      requires Valid() && end != -1 && pos <= i < end && buf[i] == LF && LF !in buf[pos..end][..i - pos]
      modifies this`pos
      ensures Valid() && Delivered(old(Pending()), Some(line), Pending())
    {
      hide Delivered;
      var lineEnd := if i != pos && buf[i - 1] == CR then i - 1 else i;
      line := buf[pos..lineEnd];
      FirstInChunk(buf[pos..end], i - pos, input.data);
      assert buf[pos..end][..lineEnd - pos] == line;
      assert buf[pos..end][i - pos + 1..] == buf[i + 1..end];
      pos := i + 1;
    }

    /** A round of the loop: collect the buffered bytes and refill the buffer. */
    method NextChunk(out: string) returns (collected: string, ok: bool)
      requires Valid() && end != -1
      modifies this, input, buf
      ensures ok <==> buf.Length == 0 || old(input.data) != ""
      ensures collected == out + old(buf[pos..end])
      ensures ok ==> Valid() && end != -1
      ensures ok ==> buf[pos..end] + input.data == old(input.data) && (buf.Length > 0 ==> buf[pos..end] != "")
      ensures ok ==> Refills(old(Search(out, buf[pos..end], input.data)), Search(collected, buf[pos..end], input.data), buf.Length)
      ensures !ok ==> Valid() && end == -1 && input.data == ""
    {
      collected := out + buf[pos..end];
      end := -1;
      ok := FillBuf();
    }

    /** The line does not end in the buffered data: collect it over several refills. */
    method ReadLongLine() returns (line: Option<string>)
      requires Valid() && buf.Length > 0 && end != -1 && buf[pos..end] != "" && LF !in buf[pos..end]
      modifies this, input, buf
      ensures Valid()
      ensures Delivered(old(Pending()), line, Pending())
      ensures HasUnterminatedLine() <==> line == None
    {
      hide Refills, IndexOf;
      ghost var s := Pending();
      var out := "";
      while true
        invariant Valid() && end != -1 && s == out + (buf[pos..end] + input.data) && LF !in out && LF !in buf[pos..end]
        decreases |input.data|
      {
        Assoc(out, buf[pos..end], input.data);
        ghost var data := input.data;
        var ok;
        out, ok := NextChunk(out);
        assert s == out + data;
        if !ok {
          assert data == "" && s == out;
          NoIndex(s, LF, 0);
          return None;
        }
        var i := FindLf();
        if i != end {
          var taken := TakeCollected(out, i, s);
          return Some(taken);
        }
      }
    }

    /** The line that began before the buffered data ends at `i` in it. */
    method TakeCollected(collected: string, i: int, ghost s: string) returns (line: string)
      requires Valid() && pos <= i < end && buf[i] == LF && LF !in collected && LF !in buf[pos..i]
      requires s == collected + (buf[pos..end] + input.data)
      modifies this`pos
      ensures Valid() && end != -1 && Delivered(s, Some(line), Pending())
    {
      var out := collected;
      SplitChunk(s, out, buf[pos..i], buf[i + 1..end], buf[pos..end], input.data);
      if i != pos {
        out := out + buf[pos..i];
      }
      pos := i + 1;
      return StripCr(out);
    }
  }

  lemma OneLine(s: string, line: Option<string>, left: string)
    requires Delivered(s, line, left)
    ensures if line == None then Lines(s) == [] && Rest(s) == s && left == ""
            else Lines(s) == [line.value] + Lines(left) && Rest(s) == Rest(left) && |left| < |s|
  {
  }

  lemma AppendLine(lines: seq<string>, line: string, rest: seq<string>)
    ensures (lines + [line]) + rest == lines + ([line] + rest)
  {
  }

  /** Reading to the end of the stream: exactly the terminated lines, whatever chunks the stream
      hands out; an unterminated line is left if and only if bytes follow the last LF. */
  method ReadAll(input: InputStream, capacity: nat) returns (lines: seq<string>, unterminated: bool)
    requires capacity > 0
    modifies input
    ensures lines == Lines(old(input.data))
    ensures unterminated <==> Rest(old(input.data)) != ""
  {
    hide Lines, Rest, IndexOf;
    var reader := new StrictLineReader(input, capacity);
    lines := [];
    ghost var s := input.data;
    while true
      invariant reader.Valid() && reader.input == input && fresh(reader) && fresh(reader.buf)
      invariant reader.Pending() == s && !reader.HasUnterminatedLine()
      invariant lines + Lines(s) == Lines(old(input.data)) && Rest(s) == Rest(old(input.data))
      decreases |s|
    {
      var line := reader.ReadLine();
      OneLine(s, line, reader.Pending());
      if line == None {
        return lines, reader.HasUnterminatedLine();
      }
      AppendLine(lines, line.value, Lines(reader.Pending()));
      lines := lines + [line.value];
      s := reader.Pending();
    }
  }
}

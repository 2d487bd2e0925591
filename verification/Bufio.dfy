/** The buffered reader of src/bufio/bufio.rs over a source that delivers its data in any
    fragmentation, with empty reads in between. */
module Bufio {

  import opened Bytes

  const MIN_SIZE: nat := 16
  const MAX_EMPTY_READS: nat := 100

  datatype Error = EndOfData(code: nat) | NoProgress | BufferFull | InvalidUnread

  // ─── the source ─────────────────────────────────────────────────────

  /** How a source answers one Read: at most so many bytes, and whether the end of the data is
      reported along with its last bytes. */
  datatype Answer = Answer(limit: nat, early: bool)

  /** Empty answers at the front. */
  function EmptyRun(script: seq<Answer>): nat {
    if script == [] || script[0].limit > 0 then 0 else 1 + EmptyRun(script[1..])
  }

  /** No hundred empty answers in a row. */
  predicate Lively(script: seq<Answer>) {
    script == [] || (EmptyRun(script) < MAX_EMPTY_READS && Lively(script[1..]))
  }

  class Source {
    const data: seq<Byte>
    const end: Error
    var pos: nat
    /** Its answers to come; when they run out it delivers all it can. */
    var script: seq<Answer>

    ghost predicate Valid()
      reads this
    {
      pos <= |data| && end.EndOfData?
    }

    constructor (data: seq<Byte>, end: Error, script: seq<Answer>)
      requires end.EndOfData?
      ensures Valid() && this.data == data && this.end == end && pos == 0 && this.script == script
    {
      this.data, this.end, this.pos, this.script := data, end, 0, script;
    }

    method Read(want: nat) returns (b: seq<Byte>, err: Option<Error>)
      requires Valid() && want > 0
      modifies this
      ensures Valid() && |b| <= want && old(pos) <= pos && b == data[old(pos)..pos]
      ensures err.Some? ==> err.value == end && pos == |data|
      ensures b == [] && err.None? <==> old(pos) < |data| && EmptyRun(old(script)) > 0
      ensures script == if old(script) == [] then [] else old(script)[1..]
    {
      var a := if script == [] then Answer(want, false) else script[0];
      if script != [] { script := script[1..]; }
      if pos == |data| { return [], Some(end); }
      var n := if a.limit < want then a.limit else want;
      if |data| - pos < n { n := |data| - pos; }
      b, pos := data[pos..pos + n], pos + n;
      err := if pos == |data| && a.early then Some(end) else None;
    }
  }

  // ─── the reader ─────────────────────────────────────────────────────

  /** n is a whole number of k. */
  predicate Multiple(n: nat, k: nat) {
    n == 0 || (0 < k <= n && Multiple(n - k, k))
  }

  /** The position of the first c, or the length when there is none. */
  function IndexByte(s: seq<Byte>, c: Byte): (i: nat)
    ensures i <= |s| && (i < |s| ==> s[i] == c) && c !in s[..i]
  {
    if s == [] || s[0] == c then 0
    else
      assert s[..1 + IndexByte(s[1..], c)] == [s[0]] + s[1..][..IndexByte(s[1..], c)];
      1 + IndexByte(s[1..], c)
  }

  class Reader {
    const buf: array<Byte>
    const rd: Source
    var r: nat
    var w: nat
    var err: Option<Error>
    var lastByte: int
    /** Every byte handed out and not put back, and how many of them there were when the code last
        recorded the byte it had handed out; 0 when it has no record. */
    ghost var taken: seq<Byte>
    ghost var mark: nat

    ghost predicate Shape()
      reads this, rd
    {
      && buf.Length >= MIN_SIZE && r <= w <= buf.Length && rd.Valid()
      && mark <= |taken| && lastByte == if mark == 0 then -1 else taken[mark - 1]
    }

    /** A pending error is the source's, and the source is exhausted. */
    ghost predicate Valid()
      reads this, rd
    {
      Shape() && (err.Some? ==> err.value == rd.end && rd.pos == |rd.data|)
    }

    /** Between calls there is room in front of the buffered data for a recorded byte. */
    ghost predicate Ready()
      reads this, rd
    {
      Valid() && (mark > 0 ==> r > 0 || w == 0)
    }

    /** Everything still to be read: what is buffered and what the source still has. */
    ghost function Rest(): seq<Byte>
      requires Shape()
      reads this, rd, buf
    {
      buf[r..w] + rd.data[rd.pos..]
    }

    /** `NewReaderSize` */
    constructor (rd: Source, size: nat)
      requires rd.Valid()
      ensures Ready() && this.rd == rd && Rest() == rd.data[rd.pos..] && fresh(buf) && taken == [] && mark == 0
      ensures buf.Length == if size < MIN_SIZE then MIN_SIZE else size
    {
      var n := if size < MIN_SIZE then MIN_SIZE else size;
      buf := new Byte[n](_ => 0);
      this.rd, r, w, err, lastByte, taken, mark := rd, 0, 0, None, -1, [], 0;
    }

    /** Move what is buffered to the front. */
    method Compact()
      requires Valid()
      modifies this`r, this`w, buf
      ensures Valid() && r == 0 && w == old(w) - old(r) && buf[..w] == old(buf[r..w])
    {
      var lo, n := r, w - r;
      Shift(lo, n);
      r, w := 0, n;
    }

    method Shift(lo: nat, n: nat)
      requires lo + n <= buf.Length
      modifies buf
      ensures buf[..n] == old(buf[lo..lo + n])
    {
      ghost var was := buf[..];
      var i := 0;
      while i < n
        invariant 0 <= i <= n
        invariant forall k :: 0 <= k < i ==> buf[k] == was[lo + k]
        invariant forall j :: lo + i <= j < lo + n ==> buf[j] == was[j]
      {
        buf[i] := buf[lo + i];
        i := i + 1;
      }
    }

    /** `fill`: read once more, up to a hundred times if the source comes back empty.  Nothing is
        lost; without an error there is more in the buffer than before. */
    method Fill()
      requires Valid() && err.None? && w - r < buf.Length
      modifies this`r, this`w, this`err, buf, rd
      ensures Shape() && r == 0 && Rest() == old(Rest())
      ensures w >= old(w) - old(r) && buf[..old(w) - old(r)] == old(buf[r..w])
      ensures err.None? ==> Valid() && w > old(w) - old(r)
      ensures err.Some? ==> err.value == NoProgress || Valid()
      ensures err == Some(NoProgress) ==> w == old(w) - old(r)
      ensures err == Some(NoProgress) <==> old(rd.pos) < |rd.data| && EmptyRun(old(rd.script)) >= MAX_EMPTY_READS
      ensures Lively(old(rd.script)) ==> Lively(rd.script) && err != Some(NoProgress)
    {
      Compact();
      ghost var kept, first := buf[..w], rd.script;
      assert Rest() == kept + rd.data[rd.pos..] == old(Rest());
      var tries := MAX_EMPTY_READS;
      while tries > 0
        invariant r == 0 && w == |kept| < buf.Length && buf[..w] == kept && err.None? && rd.Valid()
        invariant kept + rd.data[rd.pos..] == old(Rest()) && 0 <= tries <= MAX_EMPTY_READS
        invariant rd.pos == old(rd.pos) && (tries < MAX_EMPTY_READS ==> rd.pos < |rd.data|)
        invariant EmptyRun(first) == MAX_EMPTY_READS - tries + EmptyRun(rd.script)
        invariant Lively(first) ==> Lively(rd.script)
      {
        var n, e := Pull();
        if e.Some? {
          err := e;
          return;
        }
        if n > 0 { return; }
        tries := tries - 1;
      }
      err := Some(NoProgress);
    }

    /** One Read into the free end of the buffer. */
    method Pull() returns (n: nat, e: Option<Error>)
      requires rd.Valid() && w < buf.Length
      modifies this`w, buf, rd
      ensures rd.Valid() && w == old(w) + n <= buf.Length && buf[..old(w)] == old(buf[..w])
      ensures buf[..w] + rd.data[rd.pos..] == old(buf[..w] + rd.data[rd.pos..])
      ensures e.Some? ==> e.value == rd.end && rd.pos == |rd.data|
      ensures n == 0 && e.None? <==> old(rd.pos) < |rd.data| && EmptyRun(old(rd.script)) > 0
      ensures n == 0 && e.None? ==> rd.pos == old(rd.pos) && EmptyRun(old(rd.script)) == 1 + EmptyRun(rd.script)
      ensures Lively(old(rd.script)) ==> Lively(rd.script)
    {
      ghost var kept, at := buf[..w], rd.pos;
      var b;
      b, e := rd.Read(buf.Length - w);
      n := |b|;
      assert kept + rd.data[at..] == (kept + b) + rd.data[rd.pos..];
      if b != [] { Append(b); }
    }

    method Append(b: seq<Byte>)
      requires w + |b| <= buf.Length
      modifies this`w, buf
      ensures w == old(w) + |b| && buf[..w] == old(buf[..w]) + b
    {
      ghost var kept := buf[..w];
      var at, i := w, 0;
      while i < |b|
        invariant 0 <= i <= |b| && w == at && buf[..at + i] == kept + b[..i]
      {
        buf[at + i] := b[i];
        i := i + 1;
      }
      w := at + |b|;
    }

    /** `readErr` */
    method TakeError() returns (e: Option<Error>)
      modifies this`err
      ensures e == old(err) && err.None?
    {
      e := err;
      err := None;
    }

    /** `ReadSlice`: up to and including the delimiter, or a full buffer, or what is left and the
        error.  What is returned and what remains are what there was.  A full buffer is handed out
        without a record of its last byte. */
    method ReadSlice(delim: Byte) returns (line: seq<Byte>, e: Option<Error>)
      requires Ready()
      modifies this, buf, rd
      ensures Ready() && line + Rest() == old(Rest()) && taken == old(taken) + line
      ensures e.None? ==> EndsIn(line, delim)
      ensures e.Some? ==> delim !in line
      ensures Reason(e, old(rd.script)) && |line| <= buf.Length
      ensures e == Some(BufferFull) ==> |line| == buf.Length
      ensures mark == if e == Some(BufferFull) || line == [] then old(mark) else |taken|
      ensures Lively(old(rd.script)) ==> Lively(rd.script)
    {
      var s := 0;
      ghost var stream, first := Rest(), rd.script;
      while true
        invariant Shape() && Rest() == stream && 0 <= s <= w - r && delim !in buf[r..w][..s]
        invariant err.Some? ==> err.value == NoProgress || Valid()
        invariant err == Some(NoProgress) ==> !Lively(first) && s == w - r
        invariant Lively(first) ==> Lively(rd.script)
        invariant taken == old(taken) && mark == old(mark)
        decreases if err.Some? then 0 else 1, buf.Length - (w - r)
      {
        var i := Find(s, delim);
        if i < w - r {
          line := TakeLine(i, delim);
          return line, None;
        }
        assert buf[r..w][..i] == buf[r..w];
        if err.Some? {
          line, e := TakeAll(delim);
          return;
        }
        if w - r >= buf.Length {
          line := Consume(w - r);
          return line, Some(BufferFull);
        }
        s := More(delim);
      }
    }

    /** Hand out what is buffered, with the pending error. */
    method TakeAll(delim: Byte) returns (line: seq<Byte>, e: Option<Error>)
      requires Shape() && err.Some? && delim !in buf[r..w] && (err.value == NoProgress || Valid())
      modifies this
      ensures Ready() && line + Rest() == old(Rest()) && delim !in line && |line| == old(w) - old(r)
      ensures taken == old(taken) + line && mark == if line == [] then old(mark) else |taken|
      ensures e == old(err) && (e != Some(NoProgress) ==> e == Some(rd.end) && Rest() == [])
    {
      line := Consume(w - r);
      e := TakeError();
      if line != [] { Record(line[|line| - 1]); }
    }

    /** Remember the byte handed out last. */
    method Record(c: Byte)
      requires taken != [] && c == taken[|taken| - 1]
      modifies this`lastByte, this`mark
      ensures lastByte == c && mark == |taken|
    {
      lastByte, mark := c, |taken|;
    }

    /** Fill, remembering how much has been searched. */
    method More(delim: Byte) returns (s: nat)
      requires Valid() && err.None? && w - r < buf.Length && delim !in buf[r..w]
      modifies this`r, this`w, this`err, buf, rd
      ensures Shape() && Rest() == old(Rest()) && s == old(w) - old(r) <= w - r && delim !in buf[r..w][..s]
      ensures err.None? ==> Valid() && w - r > s
      ensures err.Some? ==> err.value == NoProgress || Valid()
      ensures err == Some(NoProgress) ==> s == w - r && !Lively(old(rd.script))
      ensures Lively(old(rd.script)) ==> Lively(rd.script)
    {
      s := w - r;
      Fill();
      assert buf[r..w][..s] == buf[..s];
    }

    method TakeLine(i: nat, delim: Byte) returns (line: seq<Byte>)
      requires Shape() && i < w - r && delim !in buf[r..w][..i] && buf[r + i] == delim
      modifies this`r, this`lastByte, this`taken, this`mark
      ensures Shape() && line + Rest() == old(Rest()) && EndsIn(line, delim) && |line| == i + 1
      ensures r > old(r) && taken == old(taken) + line && mark == |taken|
    {
      ghost var all := buf[r..w];
      assert all[i] == delim;
      line := Consume(i + 1);
      assert line[..i] == all[..i];
      Record(delim);
    }

    /** Search the buffered data for the delimiter, past the part already searched. */
    method Find(s: nat, delim: Byte) returns (i: nat)
      requires Shape() && s <= w - r && delim !in buf[r..w][..s]
      ensures s <= i <= w - r && delim !in buf[r..w][..i] && (i < w - r ==> buf[r + i] == delim)
    {
      var all := buf[r..w];
      SearchFrom(all, s, delim);
      i := s + IndexByte(all[s..], delim);
    }

    /** Hand out the next n buffered bytes. */
    method Consume(n: nat) returns (line: seq<Byte>)
      requires Shape() && n <= w - r
      modifies this`r, this`taken
      ensures Shape() && r == old(r) + n && line == old(buf[r..w])[..n] && line + Rest() == old(Rest())
      ensures taken == old(taken) + line
    {
      line := buf[r..w][..n];
      assert buf[r..w] == line + buf[r + n..w];
      r, taken := r + n, taken + line;
    }

    /** Why a read stopped: the delimiter, a full buffer, the end of the source, or a source that
        made no progress. */
    ghost predicate Reason(e: Option<Error>, script: seq<Answer>)
      requires Shape()
      reads this, rd, buf
    {
      match e
      case None => true
      case Some(BufferFull) => true
      case Some(NoProgress) => !Lively(script)
      case Some(x) => x == rd.end && Rest() == []
    }

    /** `ReadBytes`, for every fragmentation of the source and every buffer size: the data up to and
        including the first delimiter; or, when there is none, all the data and the source's error.
        Only a source that answers a hundred times in a row with nothing can stop it early, and
        even then nothing is lost. */
    method ReadBytes(delim: Byte) returns (line: seq<Byte>, e: Option<Error>)
      requires Ready()
      modifies this, buf, rd
      ensures Ready() && line + Rest() == old(Rest()) && taken == old(taken) + line
      ensures e.None? ==> EndsIn(line, delim) && mark == |taken|
      ensures e.Some? ==> delim !in line && e.value != BufferFull
      ensures mark == |taken| || (mark == old(mark) && Multiple(|line|, buf.Length))
      ensures Reason(e, old(rd.script))
      ensures Lively(old(rd.script)) ==> Lively(rd.script)
    {
      line := [];
      ghost var stream, first := Rest(), rd.script;
      while true
        invariant Ready() && line + Rest() == stream && delim !in line
        invariant taken == old(taken) + line && mark == old(mark) && Multiple(|line|, buf.Length)
        invariant Lively(first) ==> Lively(rd.script)
        decreases |Rest()|
      {
        ghost var before := Rest();
        var frag;
        frag, e := ReadSlice(delim);
        Regroup(line, frag, Rest(), before, stream);
        if e.None? { JoinEnds(line, frag, delim); }
        line := line + frag;
        if e != Some(BufferFull) { return; }
      }
    }

    /** `ReadByte` */
    method ReadByte() returns (c: Byte, e: Option<Error>)
      requires Ready()
      modifies this, buf, rd
      ensures Ready() && Reason(e, old(rd.script))
      ensures e.None? ==> [c] + Rest() == old(Rest()) && taken == old(taken) + [c] && mark == |taken|
      ensures e.Some? ==> c == 0 && e.value != BufferFull
      ensures e.Some? ==> Rest() == old(Rest()) && taken == old(taken) && mark == old(mark)
      ensures Lively(old(rd.script)) ==> Lively(rd.script)
    {
      ghost var stream, first := Rest(), rd.script;
      while r == w
        invariant Shape() && Rest() == stream && (err.Some? ==> err.value == NoProgress || Valid())
        invariant err == Some(NoProgress) ==> !Lively(first) && r == w
        invariant Lively(first) ==> Lively(rd.script)
        invariant taken == old(taken) && mark == old(mark)
        decreases if err.Some? then 0 else 1, buf.Length - (w - r)
      {
        if err.Some? {
          e := TakeError();
          return 0, e;
        }
        Fill();
      }
      var b := Consume(1);
      c, e := b[0], None;
      Record(c);
    }

    /** `UnreadByte`: puts a byte back exactly when one is recorded.  It is the recorded byte, so the
        stream is what it was before the last byte was read if and only if the recorded byte equals
        that last byte; it does whenever nothing was handed out after the record was made. */
    method UnreadByte() returns (e: Option<Error>)
      requires Ready()
      modifies this, buf
      ensures Ready() && mark == 0
      ensures e == if old(mark) > 0 then None else Some(InvalidUnread)
      ensures e.Some? ==> Rest() == old(Rest()) && taken == old(taken)
      ensures e.None? ==> Rest() == [old(taken[mark - 1])] + old(Rest()) && taken == old(taken[..|taken| - 1])
      ensures e.None? ==> (taken + Rest() == old(taken + Rest()) <==> old(taken[mark - 1] == taken[|taken| - 1]))
    {
      if lastByte < 0 || (r == 0 && w > 0) { return Some(InvalidUnread); }
      var c: Byte := lastByte;
      ghost var rest := Rest();
      PutBack(taken, c, rest);
      if r > 0 { r := r - 1; } else { w := 1; }
      buf[r] := c;
      e, lastByte, taken, mark := None, -1, taken[..|taken| - 1], 0;
      assert Rest() == [c] + rest;
    }
  }

  /** A byte put back in place of the last one taken. */
  lemma PutBack(taken: seq<Byte>, c: Byte, rest: seq<Byte>)
    requires taken != []
    ensures taken[..|taken| - 1] + ([c] + rest) == taken + rest <==> c == taken[|taken| - 1]
  {
    var n := |taken| - 1;
    assert (taken[..n] + ([c] + rest))[n] == c && (taken + rest)[n] == taken[n];
  }

  // ─── a byte read, a full buffer, a byte put back ────────────────────

  /** Whatever the source holds, however it is fragmented: after one byte and a line that fills the
      buffer, UnreadByte puts the first byte back and not the last one. */
  method UnreadAfterFullBuffer(rd: Source, size: nat, delim: Byte) returns (b: Reader)
    requires rd.Valid() && rd.pos == 0 && Lively(rd.script) && size >= MIN_SIZE
    requires |rd.data| > size + 1 && delim !in rd.data[..size + 1]
    modifies rd
    ensures b.Ready() && b.rd == rd && b.taken == rd.data[..size] && b.Rest() == [rd.data[0]] + rd.data[size + 1..]
    ensures b.taken + b.Rest() == rd.data <==> rd.data[0] == rd.data[size]
  {
    ghost var data := rd.data;
    b := ReadOneAndFull(rd, size, delim);
    FirstBytes(data, size);
    var e := b.UnreadByte();
  }

  lemma FirstBytes(data: seq<Byte>, n: nat)
    requires n < |data|
    ensures data[..n + 1][..n] == data[..n] && data[..n + 1][0] == data[0] && data[..n + 1][n] == data[n]
    ensures data[..n + 1] + data[n + 1..] == data
  {
  }

  method ReadOneAndFull(rd: Source, size: nat, delim: Byte) returns (b: Reader)
    requires rd.Valid() && rd.pos == 0 && Lively(rd.script) && size >= MIN_SIZE
    requires |rd.data| > size + 1 && delim !in rd.data[..size + 1]
    modifies rd
    ensures fresh(b) && fresh(b.buf) && b.Ready() && b.rd == rd
    ensures b.taken == rd.data[..size + 1] && b.mark == 1 && b.Rest() == rd.data[size + 1..]
  {
    b := ReadOne(rd, size);
    var line, full := b.ReadSlice(delim);
    NoLineYet(rd.data, line, b.Rest(), delim, size);
    assert rd.data[..size + 1] == [rd.data[0]] + rd.data[1..size + 1];
  }

  method ReadOne(rd: Source, size: nat) returns (b: Reader)
    requires rd.Valid() && rd.pos == 0 && Lively(rd.script) && size >= MIN_SIZE && rd.data != []
    modifies rd
    ensures fresh(b) && fresh(b.buf) && b.Ready() && b.rd == rd && b.buf.Length == size && Lively(rd.script)
    ensures b.taken == [rd.data[0]] && b.mark == 1 && b.Rest() == rd.data[1..]
  {
    b := new Reader(rd, size);
    assert rd.data[0..] == rd.data;
    var c, e := b.ReadByte();
    assert ([c] + b.Rest())[1..] == b.Rest();
  }

  /** Within the first bytes there is neither a delimiter nor the end of the data. */
  lemma NoLineYet(data: seq<Byte>, line: seq<Byte>, rest: seq<Byte>, delim: Byte, size: nat)
    requires |data| > size + 1 && line + rest == data[1..] && |line| <= size && delim !in data[..size + 1]
    ensures !EndsIn(line, delim) && rest != []
    ensures |line| == size ==> line == data[1..size + 1] && rest == data[size + 1..]
  {
    assert |line + rest| == |data| - 1;
    assert line == (line + rest)[..|line|] && rest == (line + rest)[|line|..];
    if line != [] {
      var k := |line| - 1;
      assert line[k] == data[1..][k] == data[k + 1] == data[..size + 1][k + 1];
    }
  }

  // ─── splitting at the delimiter ─────────────────────────────────────

  datatype Pieces = Pieces(lines: seq<seq<Byte>>, last: seq<Byte>)

  /** The data cut after every delimiter, and what follows the last one. */
  function Split(s: seq<Byte>, delim: Byte): Pieces {
    var i := IndexByte(s, delim);
    if i == |s| then Pieces([], s)
    else
      var p := Split(s[i + 1..], delim);
      Pieces([s[..i + 1]] + p.lines, p.last)
  }

  lemma {:induction false} FirstLine(line: seq<Byte>, rest: seq<Byte>, delim: Byte)
    requires EndsIn(line, delim)
    ensures IndexByte(line + rest, delim) == |line| - 1
  {
    if |line| <= 1 {
    } else {
      var t := line[1..];
      assert line[0] in line[..|line| - 1];
      assert t[..|t| - 1] == line[..|line| - 1][1..];
      FirstLine(t, rest, delim);
      assert (line + rest)[1..] == t + rest;
    }
  }

  lemma SplitFirst(line: seq<Byte>, rest: seq<Byte>, delim: Byte)
    requires EndsIn(line, delim)
    ensures Split(line + rest, delim) == Pieces([line] + Split(rest, delim).lines, Split(rest, delim).last)
  {
    FirstLine(line, rest, delim);
    assert (line + rest)[..|line|] == line && (line + rest)[|line|..] == rest;
  }

  lemma SplitNone(s: seq<Byte>, delim: Byte)
    requires delim !in s
    ensures Split(s, delim) == Pieces([], s)
  {
  }

  /** Lines that end in their only delimiter, and a last piece without one. */
  predicate Proper(p: Pieces, delim: Byte) {
    delim !in p.last && forall i :: 0 <= i < |p.lines| ==> EndsIn(p.lines[i], delim)
  }

  lemma {:induction false} SplitForward(s: seq<Byte>, delim: Byte)
    ensures var p := Split(s, delim);
      Proper(p, delim) && s == Joined(p.lines) + p.last
  {
    var i := IndexByte(s, delim);
    if i < |s| {
      var line, rest := s[..i + 1], s[i + 1..];
      assert EndsIn(line, delim) by { assert line[..i] == s[..i]; }
      assert s == line + rest;
      SplitForward(rest, delim);
      SplitFirst(line, rest, delim);
      ProperCons(line, Split(rest, delim), delim);
    } else {
      assert s[..i] == s;
      SplitNone(s, delim);
      assert Joined([]) + s == s;
    }
  }

  lemma ProperCons(line: seq<Byte>, p: Pieces, delim: Byte)
    requires EndsIn(line, delim) && Proper(p, delim)
    ensures var q := Pieces([line] + p.lines, p.last);
      Proper(q, delim) && Joined(q.lines) + q.last == line + (Joined(p.lines) + p.last)
  {
    assert ([line] + p.lines)[1..] == p.lines;
  }

  lemma {:induction false} SplitBackward(lines: seq<seq<Byte>>, last: seq<Byte>, delim: Byte)
    requires Proper(Pieces(lines, last), delim)
    ensures Split(Joined(lines) + last, delim) == Pieces(lines, last)
  {
    if lines == [] {
      assert Joined(lines) + last == last;
      SplitNone(last, delim);
    } else {
      var line, more := lines[0], lines[1..];
      SplitBackward(more, last, delim);
      SplitFirst(line, Joined(more) + last, delim);
      JoinedFirst(lines, last);
      assert lines == [line] + more;
    }
  }

  lemma JoinedFirst(lines: seq<seq<Byte>>, last: seq<Byte>)
    requires lines != []
    ensures Joined(lines) + last == lines[0] + (Joined(lines[1..]) + last)
  {
  }

  /** Splitting loses nothing, every line ends in its only delimiter, and the last piece has none;
      and this is the only such decomposition. */
  lemma SplitIff(s: seq<Byte>, delim: Byte, p: Pieces)
    ensures Split(s, delim) == p <==> s == Joined(p.lines) + p.last && Proper(p, delim)
  {
    SplitForward(s, delim);
    if Proper(p, delim) { SplitBackward(p.lines, p.last, delim); }
  }

  /** The pieces of the data are the lines read so far and the pieces of the rest. */
  predicate Onward(whole: Pieces, lines: seq<seq<Byte>>, rest: seq<Byte>, delim: Byte) {
    whole == Pieces(lines + Split(rest, delim).lines, Split(rest, delim).last)
  }

  lemma OneMoreLine(whole: Pieces, lines: seq<seq<Byte>>, line: seq<Byte>, rest: seq<Byte>, delim: Byte)
    requires Onward(whole, lines, line + rest, delim) && EndsIn(line, delim)
    ensures Onward(whole, lines + [line], rest, delim)
  {
    SplitFirst(line, rest, delim);
    var more := Split(rest, delim).lines;
    assert lines + ([line] + more) == lines + [line] + more;
  }

  lemma LastPiece(whole: Pieces, lines: seq<seq<Byte>>, line: seq<Byte>, delim: Byte)
    requires Onward(whole, lines, line, delim) && delim !in line
    ensures whole == Pieces(lines, line)
  {
    SplitNone(line, delim);
  }

  /** Reading lines until an error, over any source and with any buffer size.  At the end of the
      source the result is exactly the pieces of the data.  Only a hundred empty answers in a row
      can stop it before, and then the lines read are the first ones and nothing is lost. */
  method ReadLines(rd: Source, size: nat, delim: Byte) returns (p: Pieces, e: Error, b: Reader)
    requires rd.Valid() && rd.pos == 0
    modifies rd
    ensures fresh(b) && fresh(b.buf) && b.rd == rd && b.Ready() && (e == rd.end || e == NoProgress)
    ensures e == rd.end ==> p == Split(rd.data, delim) && b.Rest() == []
    ensures e == NoProgress ==> !Lively(old(rd.script)) && delim !in p.last
    ensures Onward(Split(rd.data, delim), p.lines, p.last + b.Rest(), delim)
  {
    b := new Reader(rd, size);
    var lines: seq<seq<Byte>> := [];
    ghost var whole := Split(rd.data, delim);
    assert rd.data[0..] == rd.data;
    while true
      invariant b.Ready() && b.rd == rd && fresh(b) && fresh(b.buf)
      invariant Lively(old(rd.script)) ==> Lively(rd.script)
      invariant Onward(whole, lines, b.Rest(), delim)
      decreases |b.Rest()|
    {
      ghost var stream := b.Rest();
      var line, err := b.ReadBytes(delim);
      if err.Some? {
        p, e := Pieces(lines, line), err.value;
        if b.Rest() == [] {
          assert line + b.Rest() == line;
          LastPiece(whole, lines, line, delim);
        }
        return;
      }
      OneMoreLine(whole, lines, line, b.Rest(), delim);
      lines := lines + [line];
    }
  }

  /** A line: one delimiter, at its end. */
  predicate EndsIn(line: seq<Byte>, delim: Byte) {
    line != [] && line[|line| - 1] == delim && delim !in line[..|line| - 1]
  }

  lemma JoinEnds(a: seq<Byte>, b: seq<Byte>, delim: Byte)
    requires delim !in a && EndsIn(b, delim)
    ensures EndsIn(a + b, delim)
  {
    assert (a + b)[..|a + b| - 1] == a + b[..|b| - 1];
  }

  lemma Regroup(line: seq<Byte>, frag: seq<Byte>, rest: seq<Byte>, before: seq<Byte>, stream: seq<Byte>)
    requires line + before == stream && frag + rest == before
    ensures line + frag + rest == stream && |rest| == |before| - |frag|
  {
    assert line + frag + rest == line + (frag + rest);
  }

  lemma SearchFrom(s: seq<Byte>, k: nat, c: Byte)
    requires k <= |s| && c !in s[..k]
    ensures var i := k + IndexByte(s[k..], c);
      i <= |s| && c !in s[..i] && (i < |s| ==> s[i] == c)
  {
    var i := IndexByte(s[k..], c);
    assert s[..k + i] == s[..k] + s[k..][..i];
  }
}

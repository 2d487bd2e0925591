/** The streaming encoder of src/encoding/ascii85/ascii85.rs. */
module Ascii85Stream {

  import opened Bytes
  import opened Ascii85

  lemma EncodeWhole(a: seq<Byte>, b: seq<Byte>)
    requires Whole(|a|)
    ensures Encode(a + b) == Encode(a) + Encode(b)
  {
    WholeIsMultiple(|a|);
    EncodeAppend(a, b);
  }

  lemma {:induction false} WholeSum(m: nat, n: nat)
    requires Whole(m) && Whole(n)
    ensures Whole(m + n)
  {
    if m == 0 {
    } else {
      WholeSum(m - 4, n);
    }
  }

  /** The length of the next interior chunk: at most 816 bytes, whole groups only. */
  function ChunkLen(n: nat): (k: nat)
    requires n >= 4
    ensures 4 <= k <= n && k <= 816
  {
    var k := if 1024 / 5 * 4 > n then n else 1024 / 5 * 4;
    k - k % 4
  }

  lemma ChunkWhole(n: nat)
    requires n >= 4
    ensures Whole(ChunkLen(n))
  {
    WholeIsMultiple(ChunkLen(n));
  }

  class Encoder {
    var failed: bool
    const buf: array<Byte>
    var nbuf: nat
    const out: array<Byte>
    /** What the writer below has received, and its answers to come: false is a write error. */
    var sink: seq<Byte>
    var answers: seq<bool>
    /** What the sink held when the message began. */
    ghost var done: seq<Byte>
    /** Every byte of the message given to Write, and those of them already encoded into the sink. */
    ghost var written: seq<Byte>
    ghost var sent: seq<Byte>

    ghost predicate Shape()
      reads this
    {
      buf.Length == 4 && out.Length == 1024 && buf != out && nbuf <= 4
    }

    ghost predicate Valid()
      reads this, buf
    {
      && Shape()
      && Whole(|sent|) && sink == done + Encode(sent) && sent <= written
      && (!failed ==> nbuf < 4 && written == sent + buf[..nbuf])
    }

    constructor (answers: seq<bool>)
      ensures Valid() && !failed && written == [] && sink == done == [] && this.answers == answers
      ensures fresh(buf) && fresh(out)
    {
      failed, nbuf, sink, done, written, sent := false, 0, [], [], [], [];
      buf, out := new Byte[4], new Byte[1024];
      this.answers := answers;
    }

    /** The writer below: it takes the whole chunk or fails. */
    method Emit(chunk: seq<Byte>) returns (ok: bool)
      modifies this`sink, this`answers
      ensures sink == if ok then old(sink) + chunk else old(sink)
      ensures old(answers) == [] ==> ok && answers == []
    {
      ok := answers == [] || answers[0];
      if answers != [] { answers := answers[1..]; }
      if ok { sink := sink + chunk; }
    }

    /** Encode whole groups into the sink. */
    method SendGroups(b: seq<Byte>) returns (ok: bool)
      requires Sent() && Whole(|b|) && |b| <= 816
      modifies this`sink, this`answers, this`sent, this`failed, out
      ensures Sent()
      ensures sent == if ok then old(sent) + b else old(sent)
      ensures failed == (old(failed) || !ok)
      ensures old(answers) == [] ==> ok && answers == []
    {
      var n := EncodeInto(out, b);
      EncodeWhole(sent, b);
      WholeSum(|sent|, |b|);
      Associate(done, Encode(sent), Encode(b));
      ok := Emit(out[..n]);
      if ok { sent := sent + b; } else { failed := true; }
    }

    /** The sink holds whole groups only. */
    ghost predicate Sent()
      reads this
    {
      Shape() && Whole(|sent|) && sink == done + Encode(sent)
    }

    /** `Write`: whatever the split of the input, the sink holds the encoding of its whole groups
        and the buffer holds the rest. */
    method Write(p: seq<Byte>) returns (n: nat, ok: bool)
      requires Valid()
      modifies this, buf, out
      ensures Valid() && written == old(written) + p && done == old(done)
      ensures !ok && !old(failed) ==> n <= |p| && sent <= old(written) + p[..n] && |old(written)| + n <= |sent| + 4
      ensures ok == !failed && (ok ==> n == |p|) && (old(failed) ==> !ok && n == 0 && sink == old(sink))
      ensures old(answers) == [] && !old(failed) ==> ok && answers == []
    {
      written := written + p;
      n, ok := 0, !failed;
      if failed { return; }
      var rest := p;
      if nbuf > 0 {
        n := Lead(p);
        ok := !failed;
        if failed || nbuf > 0 { return; }
        rest := p[n..];
      }
      var left := Interior(rest);
      ok := !failed;
      if failed {
        n := n + |rest| - |left|;
        return;
      }
      Keep(left);
      n := n + |rest|;
    }

    /** Top up a started group and, when it is full, send it. */
    method Lead(p: seq<Byte>) returns (n: nat)
      requires Sent() && !failed && 0 < nbuf < 4 && written == sent + (buf[..nbuf] + p)
      modifies this`nbuf, this`sink, this`answers, this`sent, this`failed, buf, out
      ensures Sent() && n <= |p| && sent <= written
      ensures !failed && nbuf > 0 ==> nbuf < 4 && n == |p| && written == sent + buf[..nbuf]
      ensures !failed && nbuf == 0 ==> written == sent + p[n..]
      ensures failed ==> sent == old(sent) && old(nbuf) + n == 4
      ensures old(answers) == [] ==> !failed && answers == []
    {
      n := FillBuffer(p);
      TopUp(sent, old(buf[..nbuf]), p, n);
      if nbuf < 4 { return; }
      var ok := SendGroups(buf[..nbuf]);
      if ok { nbuf := 0; }
    }

    /** Large interior chunks; at most three bytes are left. */
    method Interior(p: seq<Byte>) returns (left: seq<Byte>)
      requires Sent() && !failed && written == sent + p
      modifies this`sink, this`answers, this`sent, this`failed, out
      ensures Sent() && |left| <= |p| && sent <= written && sent == old(sent) + p[..|p| - |left|]
      ensures !failed ==> |left| < 4 && written == sent + left
      ensures old(answers) == [] ==> !failed && answers == []
    {
      left := p;
      while |left| >= 4
        invariant Sent() && !failed && |left| <= |p| && written == sent + left
        invariant left == p[|p| - |left|..] && sent == old(sent) + p[..|p| - |left|]
        invariant old(answers) == [] ==> answers == []
        decreases |left|
      {
        var k := ChunkLen(|left|);
        ChunkWhole(|left|);
        MoveFront(sent, left, k);
        var ok := SendGroups(left[..k]);
        if !ok { return; }
        left := left[k..];
      }
    }

    /** The leading fringe: top up the buffer to four bytes. */
    method FillBuffer(p: seq<Byte>) returns (i: nat)
      requires Shape() && nbuf < 4
      modifies this`nbuf, buf
      ensures i <= |p| && nbuf == old(nbuf) + i <= 4 && (nbuf < 4 ==> i == |p|)
      ensures buf[..nbuf] == old(buf[..nbuf]) + p[..i]
    {
      i := 0;
      while i < |p| && nbuf < 4
        invariant 0 <= i <= |p| && nbuf == old(nbuf) + i <= 4
        invariant buf[..nbuf] == old(buf[..nbuf]) + p[..i]
      {
        buf[nbuf] := p[i];
        nbuf, i := nbuf + 1, i + 1;
      }
    }

    /** The trailing fringe: keep what is left of the input. */
    method Keep(rest: seq<Byte>)
      requires Shape() && |rest| < 4
      modifies this`nbuf, buf
      ensures nbuf == |rest| && buf[..nbuf] == rest
    {
      var i := 0;
      while i < |rest|
        invariant 0 <= i <= |rest| && buf[..i] == rest[..i]
      {
        buf[i] := rest[i];
        i := i + 1;
      }
      nbuf := |rest|;
    }

    /** `Close`: without a write error the sink has got the one-shot encoding of everything written, and
        the next Write begins a new message. */
    method Close() returns (ok: bool)
      requires Valid()
      modifies this, out
      ensures Valid() && ok == !failed
      ensures ok ==> sink == old(done) + Encode(old(written)) && done == sink && written == []
      ensures !ok ==> sink == old(sink) && written == old(written) && done == old(done)
      ensures old(answers) == [] && !old(failed) ==> ok && answers == []
    {
      EncodeWhole(sent, buf[..nbuf]);
      if !failed && nbuf > 0 {
        var n := EncodeInto(out, buf[..nbuf]);
        Associate(done, Encode(sent), Encode(buf[..nbuf]));
        ok := Emit(out[..n]);
        if !ok { failed := true; }
        nbuf := 0;
      }
      ok := !failed;
      if ok {
        assert sink + [] == sink;
        done, written, sent := sink, [], [];
      }
    }
  }

  /** Every split of the input into Writes followed by Close gives the one-shot encoding. */
  method EncodeAll(pieces: seq<seq<Byte>>) returns (s: seq<Byte>)
    ensures s == Encode(Joined(pieces))
  {
    var e := new Encoder([]);
    var i := 0;
    while i < |pieces|
      invariant 0 <= i <= |pieces| && e.Valid() && !e.failed && e.answers == [] && fresh(e) && fresh(e.buf)
      invariant fresh(e.out)
      invariant e.done == [] && e.written == Joined(pieces[..i])
    {
      var n, ok := e.Write(pieces[i]);
      JoinedSnoc(pieces, i);
      i := i + 1;
    }
    assert pieces[..i] == pieces;
    var ok := e.Close();
    s := e.sink;
  }
}

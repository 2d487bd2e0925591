/** The streaming encoder of src/encoding/base64/base64.rs. */
module Base64Stream {

  import opened Bytes
  import opened Base64
  import opened Base64Decode
  import opened Base64Code

  /** The length of the next interior chunk: at most 768 bytes, whole groups only. */
  function ChunkLen(n: nat): (k: nat)
    requires n >= 3
    ensures 3 <= k <= n && k <= 768
  {
    var k := 1024 / 4 * 3;
    if k > n then n - n % 3 else k
  }

  lemma ChunkTailless(p: seq<Byte>)
    requires |p| >= 3
    ensures Tailless(p[..ChunkLen(|p|)])
  {
    TaillessIsMultiple(p[..ChunkLen(|p|)]);
  }

  class Encoder {
    const enc: Encoding
    var failed: bool
    const buf: array<Byte>
    var nbuf: nat
    const out: array<Byte>
    /** What the writer below has received, and its answers to come: false is a write error. */
    var sink: seq<Byte>
    var answers: seq<bool>
    /** What the sink held when the message began. */
    ghost var done: seq<Byte>
    /** Every byte of the message given to Write, and those of them already encoded into the sink. */
    ghost var written: seq<Byte>
    ghost var sent: seq<Byte>

    ghost predicate Shape()
      reads this
    {
      enc.Valid() && buf.Length == 3 && out.Length == 1024 && buf != out && nbuf <= 3
    }

    ghost predicate Valid()
      reads this, buf
    {
      && Shape()
      && Tailless(sent) && sink == done + Encode(enc, sent) && sent <= written
      && (!failed ==> nbuf < 3 && written == sent + buf[..nbuf])
    }

    constructor (enc: Encoding, answers: seq<bool>)
      requires enc.Valid()
      ensures Valid() && !failed && written == [] && sink == done == [] && this.answers == answers && this.enc == enc
      ensures fresh(buf) && fresh(out)
    {
      failed, nbuf, sink, done, written, sent := false, 0, [], [], [], [];
      buf, out := new Byte[3], new Byte[1024];
      this.enc, this.answers := enc, answers;
    }

    /** The writer below: it takes the whole chunk or fails. */
    method Emit(chunk: seq<Byte>) returns (ok: bool)
      modifies this`sink, this`answers
      ensures sink == if ok then old(sink) + chunk else old(sink)
      ensures old(answers) == [] ==> ok && answers == []
    {
      ok := answers == [] || answers[0];
      if answers != [] { answers := answers[1..]; }
      if ok { sink := sink + chunk; }
    }

    /** Encode whole groups into the sink. */
    method SendGroups(b: seq<Byte>) returns (ok: bool)
      requires Sent() && Tailless(b) && |b| <= 768
      modifies this`sink, this`answers, this`sent, this`failed, out
      ensures Sent()
      ensures sent == if ok then old(sent) + b else old(sent)
      ensures failed == (old(failed) || !ok)
      ensures old(answers) == [] ==> ok && answers == []
    {
      EncodeInto(enc, out, b);
      EncodeAppend(enc, sent, b);
      TaillessAppend(sent, b);
      Associate(done, Encode(enc, sent), Encode(enc, b));
      ok := Emit(out[..EncodedLen(enc, |b|)]);
      if ok { sent := sent + b; } else { failed := true; }
    }

    /** The sink holds whole groups only. */
    ghost predicate Sent()
      reads this
    {
      Shape() && Tailless(sent) && sink == done + Encode(enc, sent)
    }

    /** `Write`: whatever the split of the input, the sink holds the encoding of its whole groups
        and the buffer holds the rest. */
    method Write(p: seq<Byte>) returns (n: nat, ok: bool)
      requires Valid()
      modifies this, buf, out
      ensures Valid() && written == old(written) + p && done == old(done)
      ensures !ok && !old(failed) ==> n <= |p| && sent <= old(written) + p[..n] && |old(written)| + n <= |sent| + 3
      ensures ok == !failed && (ok ==> n == |p|) && (old(failed) ==> !ok && n == 0 && sink == old(sink))
      ensures old(answers) == [] && !old(failed) ==> ok && answers == []
    {
      written := written + p;
      n, ok := 0, !failed;
      if failed { return; }
      var rest := p;
      if nbuf > 0 {
        n := Lead(p);
        ok := !failed;
        if failed || nbuf > 0 { return; }
        rest := p[n..];
      }
      var left := Interior(rest);
      ok := !failed;
      if failed {
        n := n + |rest| - |left|;
        return;
      }
      Keep(left);
      n := n + |rest|;
    }

    /** Top up a started group and, when it is full, send it. */
    method Lead(p: seq<Byte>) returns (n: nat)
      requires Sent() && !failed && 0 < nbuf < 3 && written == sent + (buf[..nbuf] + p)
      modifies this`nbuf, this`sink, this`answers, this`sent, this`failed, buf, out
      ensures Sent() && n <= |p| && sent <= written
      ensures !failed && nbuf > 0 ==> nbuf < 3 && n == |p| && written == sent + buf[..nbuf]
      ensures !failed && nbuf == 0 ==> written == sent + p[n..]
      ensures failed ==> sent == old(sent) && old(nbuf) + n == 3
      ensures old(answers) == [] ==> !failed && answers == []
    {
      n := FillBuffer(p);
      TopUp(sent, old(buf[..nbuf]), p, n);
      if nbuf < 3 { return; }
      var ok := SendGroups(buf[..nbuf]);
      if ok { nbuf := 0; }
    }

    /** Large interior chunks; at most two bytes are left. */
    method Interior(p: seq<Byte>) returns (left: seq<Byte>)
      requires Sent() && !failed && written == sent + p
      modifies this`sink, this`answers, this`sent, this`failed, out
      ensures Sent() && |left| <= |p| && sent <= written && sent == old(sent) + p[..|p| - |left|]
      ensures !failed ==> |left| < 3 && written == sent + left
      ensures old(answers) == [] ==> !failed && answers == []
    {
      left := p;
      while |left| >= 3
        invariant Sent() && !failed && |left| <= |p| && written == sent + left
        invariant left == p[|p| - |left|..] && sent == old(sent) + p[..|p| - |left|]
        invariant old(answers) == [] ==> answers == []
        decreases |left|
      {
        var k := ChunkLen(|left|);
        ChunkTailless(left);
        MoveFront(sent, left, k);
        var ok := SendGroups(left[..k]);
        if !ok { return; }
        left := left[k..];
      }
    }

    /** The leading fringe: top up the buffer to three bytes. */
    method FillBuffer(p: seq<Byte>) returns (i: nat)
      requires Shape() && nbuf < 3
      modifies this`nbuf, buf
      ensures i <= |p| && nbuf == old(nbuf) + i <= 3 && (nbuf < 3 ==> i == |p|)
      ensures buf[..nbuf] == old(buf[..nbuf]) + p[..i]
    {
      i := 0;
      while i < |p| && nbuf < 3
        invariant 0 <= i <= |p| && nbuf == old(nbuf) + i <= 3
        invariant buf[..nbuf] == old(buf[..nbuf]) + p[..i]
      {
        buf[nbuf] := p[i];
        nbuf, i := nbuf + 1, i + 1;
      }
    }

    /** The trailing fringe: keep what is left of the input. */
    method Keep(rest: seq<Byte>)
      requires Shape() && |rest| < 3
      modifies this`nbuf, buf
      ensures nbuf == |rest| && buf[..nbuf] == rest
    {
      var i := 0;
      while i < |rest|
        invariant 0 <= i <= |rest| && buf[..i] == rest[..i]
      {
        buf[i] := rest[i];
        i := i + 1;
      }
      nbuf := |rest|;
    }

    /** Encode the last one or two bytes into the sink. */
    method SendRest() returns (ok: bool)
      requires Sent() && 0 < nbuf < 3
      modifies this`sink, this`answers, out
      ensures sink == if ok then done + Encode(enc, sent + buf[..nbuf]) else old(sink)
      ensures old(answers) == [] ==> ok && answers == []
    {
      EncodeAppend(enc, sent, buf[..nbuf]);
      Associate(done, Encode(enc, sent), Encode(enc, buf[..nbuf]));
      EncodeInto(enc, out, buf[..nbuf]);
      ok := Emit(out[..EncodedLen(enc, nbuf)]);
    }

    /** `Close`: without a write error the sink has got the one-shot encoding of everything written, and
        the next Write begins a new message. */
    method Close() returns (ok: bool)
      requires Valid()
      modifies this, out
      ensures Valid() && ok == !failed
      ensures ok ==> sink == old(done) + Encode(enc, old(written)) && done == sink && written == []
      ensures !ok ==> sink == old(sink) && written == old(written) && done == old(done)
      ensures old(answers) == [] && !old(failed) ==> ok && answers == []
    {
      if !failed && nbuf > 0 {
        ok := SendRest();
        if !ok { failed := true; }
        nbuf := 0;
      } else {
        assert sent + buf[..0] == sent;
      }
      ok := !failed;
      if ok {
        assert sink + [] == sink;
        done, written, sent := sink, [], [];
      }
    }
  }

  /** Every split of the input into Writes followed by Close gives the one-shot encoding. */
  method EncodeAll(enc: Encoding, pieces: seq<seq<Byte>>) returns (s: seq<Byte>)
    requires enc.Valid()
    ensures s == Encode(enc, Joined(pieces))
  {
    var e := new Encoder(enc, []);
    var i := 0;
    while i < |pieces|
      invariant 0 <= i <= |pieces| && e.Valid() && !e.failed && e.answers == [] && fresh(e) && fresh(e.buf)
      invariant fresh(e.out)
      invariant e.enc == enc && e.done == [] && e.written == Joined(pieces[..i])
    {
      var n, ok := e.Write(pieces[i]);
      JoinedSnoc(pieces, i);
      i := i + 1;
    }
    assert pieces[..i] == pieces;
    var ok := e.Close();
    s := e.sink;
  }
}

/** Bytes, optional values and sequences, shared by the modules. */
module Bytes {

  type Byte = x: int | 0 <= x < 256

  datatype Option<+T> = None | Some(value: T)

  /** Pieces, put together. */
  function Joined(pieces: seq<seq<Byte>>): seq<Byte> {
    if pieces == [] then [] else pieces[0] + Joined(pieces[1..])
  }

  lemma {:induction false} JoinedSnoc(pieces: seq<seq<Byte>>, n: nat)
    requires n < |pieces|
    ensures Joined(pieces[..n + 1]) == Joined(pieces[..n]) + pieces[n]
  {
    if n == 0 {
      assert pieces[..1][1..] == [];
    } else {
      JoinedSnoc(pieces[1..], n - 1);
      assert pieces[..n + 1][1..] == pieces[1..][..n] && pieces[..n][1..] == pieces[1..][..n - 1];
    }
  }

  lemma Associate(a: seq<Byte>, b: seq<Byte>, c: seq<Byte>)
    ensures a + (b + c) == a + b + c
  {
  }

  function RemoveAt<T>(q: seq<T>, k: nat): seq<T>
    requires k < |q|
  {
    q[..k] + q[k + 1..]
  }

  /** Moving the first n bytes of the rest behind what is already done. */
  lemma MoveFront(done: seq<Byte>, rest: seq<Byte>, n: nat)
    requires n <= |rest|
    ensures done + rest == done + rest[..n] + rest[n..]
    ensures done <= done + rest && done + rest[..n] <= done + rest
  {
  }

  lemma TopUp(done: seq<Byte>, held: seq<Byte>, p: seq<Byte>, n: nat)
    requires n <= |p|
    ensures done + (held + p) == done + (held + p[..n]) + p[n..]
    ensures done <= done + (held + p) && done + (held + p[..n]) <= done + (held + p)
  {
    assert held + p == (held + p[..n]) + p[n..];
  }
}

/** Cutting a byte stream back into the packets it was concatenated from. */
module Framing {
  import opened Options
  import opened Seqs
  import opened Bytes

  /** What an unpacker finds at the front of the received bytes: a result and the bytes it used. */
  datatype Frame<R> = Frame(result: R, used: nat)

  /** The receive loop: frames are taken from the front until none is complete.  A frame of
      no bytes would never let the loop advance, so it stops there too. */
  function Deframe<R>(next: seq<Byte> -> Option<Frame<R>>, raw: seq<Byte>): (seq<R>, seq<Byte>)
    decreases |raw|
  {
    var f := next(raw);
    if f.Some? && 0 < f.value.used <= |raw| then
      var (more, rest) := Deframe(next, raw[f.value.used..]);
      ([f.value.result] + more, rest)
    else ([], raw)
  }

  /** Whatever follows the packet, the unpacker finds exactly the packet. */
  ghost predicate SelfDelimiting<R(!new)>(next: seq<Byte> -> Option<Frame<R>>, packet: seq<Byte>, r: R) {
    packet != [] && forall rest :: next(packet + rest) == Some(Frame(r, |packet|))
  }

  /** A concatenation of self-delimiting packets, followed by bytes that hold no complete one,
      deframes to the packets' results in order and leaves exactly those bytes. */
  lemma {:induction false} DeframeConcatenation<R(!new)>(next: seq<Byte> -> Option<Frame<R>>,
    packets: seq<seq<Byte>>, results: seq<R>, tail: seq<Byte>)
    requires |packets| == |results|
    requires forall i :: 0 <= i < |packets| ==> SelfDelimiting(next, packets[i], results[i])
    requires next(tail).None?
    ensures Deframe(next, Join(packets) + tail) == (results, tail)
    decreases |packets|
  {
    if packets == [] {
      assert Join(packets) + tail == tail;
    } else {
      var rest := Join(packets[1..]) + tail;
      DeframeConcatenation(next, packets[1..], results[1..], tail);
      assert Join(packets) + tail == packets[0] + rest;
      assert SelfDelimiting(next, packets[0], results[0]);
      assert next(packets[0] + rest) == Some(Frame(results[0], |packets[0]|));
      assert results == [results[0]] + results[1..];
      assert (packets[0] + rest)[|packets[0]|..] == rest;
    }
  }

  /** Once a frame is complete, later bytes do not change it. */
  ghost predicate PrefixStable<R(!new)>(next: seq<Byte> -> Option<Frame<R>>) {
    forall x, y :: next(x).Some? ==> next(x + y) == next(x) && next(x).value.used <= |x|
  }

  /** A receiver that keeps the undelivered bytes and deframes again after every piece. */
  function Receive<R>(next: seq<Byte> -> Option<Frame<R>>, buf: seq<Byte>, pieces: seq<seq<Byte>>): (seq<R>, seq<Byte>)
    decreases |pieces|
  {
    if pieces == [] then ([], buf)
    else
      var (got, rest) := Deframe(next, buf + pieces[0]);
      var (more, left) := Receive(next, rest, pieces[1..]);
      (got + more, left)
  }

  lemma {:induction false} DeframeInTwoSteps<R(!new)>(next: seq<Byte> -> Option<Frame<R>>, x: seq<Byte>, y: seq<Byte>)
    requires PrefixStable(next)
    ensures var (got, rest) := Deframe(next, x); var (more, left) := Deframe(next, rest + y);
            Deframe(next, x + y) == (got + more, left)
    decreases |x|
  {
    var f := next(x);
    var (got, rest) := Deframe(next, x);
    var (more, left) := Deframe(next, rest + y);
    if f.Some? && 0 < f.value.used <= |x| {
      var n := f.value.used;
      DeframeInTwoSteps(next, x[n..], y);
      assert (x + y)[n..] == x[n..] + y;
      assert next(x + y) == f;
      var (got', rest') := Deframe(next, x[n..]);
      assert got + more == [f.value.result] + (got' + more);
    } else {
      assert got + more == more;
    }
  }

  /** For every byte string, valid or not, what is delivered and what is kept does not depend
      on how the network cut the bytes. */
  lemma {:induction false} CutIndependent<R(!new)>(next: seq<Byte> -> Option<Frame<R>>, buf: seq<Byte>,
    pieces: seq<seq<Byte>>)
    requires PrefixStable(next) && pieces != []
    ensures Receive(next, buf, pieces) == Deframe(next, buf + Join(pieces))
    decreases |pieces|
  {
    var (got, rest) := Deframe(next, buf + pieces[0]);
    if |pieces| == 1 {
      assert Join(pieces) == pieces[0] + [];
      assert buf + Join(pieces) == buf + pieces[0];
      assert got + [] == got;
    } else {
      CutIndependent(next, rest, pieces[1..]);
      DeframeInTwoSteps(next, buf + pieces[0], Join(pieces[1..]));
      Assoc(buf, pieces[0], Join(pieces[1..]));
    }
  }
}

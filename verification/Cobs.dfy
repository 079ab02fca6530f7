/**
 * Consistent overhead byte stuffing, in place. The first and last bytes of the buffer belong to the
 * encoding; what lies between is payload. Encoding threads the zeroes of the payload into a chain of
 * distances, so that the only zero left is the last byte.
 */
module Cobs {
  import opened Messages

  /** The first place at or after k that holds a zero or is the last. */
  function NextZero(x: seq<Byte>, k: nat): (z: nat)
    requires k < |x|
    ensures k <= z < |x|
    ensures z == |x| - 1 || x[z] == 0
    ensures forall i :: k <= i < z ==> x[i] != 0
    decreases |x| - k
  {
    if k == |x| - 1 || x[k] == 0 then k else NextZero(x, k + 1)
  }

  /** Place i is a link of the chain: the start, or a zero of the payload. */
  predicate Link(x: seq<Byte>, i: nat)
    requires i < |x|
  {
    i == 0 || x[i] == 0
  }

  function Encoded(x: seq<Byte>, i: nat): (b: int)
    requires i < |x|
  {
    if i == |x| - 1 then 0 else if Link(x, i) then NextZero(x, i + 1) - i else x[i]
  }

  function Encode(x: seq<Byte>): (y: seq<Byte>)
    requires 3 <= |x| <= 256
    ensures |y| == |x|
    ensures forall i :: 0 <= i < |x| ==> y[i] == Encoded(x, i)
  {
    seq(|x|, i requires 0 <= i < |x| => Encoded(x, i))
  }

  /** The bytes of a frame as they travel: a zero at the end and nowhere else. */
  predicate Framed(y: seq<Byte>) {
    |y| > 0 && y[|y| - 1] == 0 && forall i :: 0 <= i < |y| - 1 ==> y[i] != 0
  }

  /** Encoding leaves a zero at the end and nowhere else. */
  lemma {:induction false} EncodeFrames(x: seq<Byte>)
    requires 3 <= |x| <= 256
    ensures Framed(Encode(x))
  {
  }

  /** Following the chain from place c, zeroing the links. A zero link would not advance. */
  function DecodeFrom(y: seq<Byte>, c: nat): (x: seq<Byte>)
    requires forall i :: c <= i < |y| - 1 ==> y[i] != 0
    ensures |x| == |y|
    ensures forall i :: 0 <= i < c && i < |y| ==> x[i] == y[i]
    ensures forall i :: 0 <= i < |y| && x[i] != y[i] ==> x[i] == 0
    ensures |y| > 0 ==> x[|y| - 1] == y[|y| - 1]
    decreases |y| - c
  {
    if c + 1 >= |y| then y else DecodeFrom(y[c := 0], c + y[c])
  }

  function Decode(y: seq<Byte>): seq<Byte>
    requires Framed(y)
  {
    DecodeFrom(y, 0)
  }

  /** The payload with the two bytes of the encoding cleared. */
  function Cleared(x: seq<Byte>): (r: seq<Byte>)
    requires |x| > 0
    ensures |r| == |x|
  {
    x[0 := 0][|x| - 1 := 0]
  }

  /** Decoding, once it stands at link c with everything before it restored. */
  lemma {:induction false} DecodeRestores(x: seq<Byte>, y: seq<Byte>, c: nat)
    requires 3 <= |x| <= 256 && |y| == |x| && c < |x|
    requires c == |x| - 1 || Link(x, c)
    requires forall i :: 0 <= i < c ==> y[i] == Cleared(x)[i]
    requires forall i :: c <= i < |x| ==> y[i] == Encoded(x, i)
    ensures forall i :: c <= i < |y| - 1 ==> y[i] != 0
    ensures DecodeFrom(y, c) == Cleared(x)
    decreases |x| - c
  {
    if c < |x| - 1 {
      DecodeRestores(x, y[c := 0], NextZero(x, c + 1));
    }
  }

  /** Decoding restores every payload byte. */
  lemma {:induction false} DecodeEncode(x: seq<Byte>)
    requires 3 <= |x| <= 256
    ensures Framed(Encode(x))
    ensures Decode(Encode(x)) == Cleared(x)
    ensures Decode(Encode(x))[1 .. |x| - 1] == x[1 .. |x| - 1]
  {
    EncodeFrames(x);
    DecodeRestores(x, Encode(x), 0);
  }

  /** arq__cobs_encode on the first len bytes of a buffer. */
  method EncodeInPlace(p: array<Byte>, len: nat)
    requires 3 <= len <= 256 && len <= p.Length
    modifies p
    ensures p[..len] == Encode(old(p[..len]))
    ensures p[len..] == old(p[len..])
  {
    ghost var x := p[..len];
    var patch, c := 0, 1;
    while c < len - 1
      invariant 0 <= patch < c <= len - 1
      invariant Link(x, patch)
      invariant forall i :: patch < i < c ==> x[i] != 0
      invariant forall i :: 0 <= i < patch ==> p[i] == Encoded(x, i)
      invariant forall i :: patch < i < c ==> p[i] == x[i]
      invariant forall i :: c <= i < len ==> p[i] == x[i]
      invariant p[len..] == old(p[len..])
    {
      if p[c] == 0 {
        NextZeroIs(x, patch + 1, c);
        p[patch] := c - patch;
        patch := c;
      }
      c := c + 1;
    }
    NextZeroIs(x, patch + 1, c);
    p[patch] := c - patch;
    p[c] := 0;
    assert forall i :: 0 <= i < len ==> p[..len][i] == Encoded(x, i);
  }

  lemma {:induction false} NextZeroIs(x: seq<Byte>, k: nat, z: nat)
    requires k <= z < |x| && (z == |x| - 1 || x[z] == 0) && forall i :: k <= i < z ==> x[i] != 0
    ensures NextZero(x, k) == z
    decreases z - k
  {
    if k < z { NextZeroIs(x, k + 1, z); }
  }

  /** arq__cobs_decode on the first len bytes of a buffer that hold any complete frame, encoded or not. */
  method DecodeInPlace(p: array<Byte>, len: nat)
    requires len <= p.Length && Framed(p[..len])
    modifies p
    ensures p[..len] == Decode(old(p[..len]))
    ensures p[len..] == old(p[len..])
  {
    ghost var y := p[..len];
    var c := 0;
    while c + 1 < len
      invariant 0 <= c
      invariant forall i :: c <= i < len - 1 ==> p[i] != 0
      invariant forall i :: c <= i < |p[..len]| - 1 ==> p[..len][i] != 0
      invariant DecodeFrom(p[..len], c) == Decode(y)
      invariant p[len..] == old(p[len..])
      decreases len - c
    {
      ghost var was := p[..len];
      var next := c + p[c];
      p[c] := 0;
      assert p[..len] == was[c := 0];
      c := next;
    }
  }
}

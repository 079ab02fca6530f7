/** Copying into a buffer. */
module Memory {
  import opened Messages

  /** Part of what follows place a. */
  lemma {:induction false} SliceAfter(x: seq<Byte>, a: nat, lo: nat, hi: nat)
    requires lo <= hi && a + hi <= |x|
    ensures x[a + lo .. a + hi] == x[a..][lo..hi]
  {
  }

  /** Part of what precedes place a. */
  lemma {:induction false} SliceBefore(x: seq<Byte>, a: nat, lo: nat, hi: nat)
    requires lo <= hi <= a <= |x|
    ensures x[lo..hi] == x[..a][lo..hi]
  {
  }

  /** A part cut at two places. */
  lemma {:induction false} SliceCut(x: seq<Byte>, lo: nat, a: nat, b: nat, hi: nat)
    requires lo <= a <= b <= hi <= |x|
    ensures x[lo..hi] == x[lo..a] + x[a..b] + x[b..hi]
  {
  }

  /** A string with part of it replaced. */
  function Put(b: seq<Byte>, at: nat, src: seq<Byte>): (r: seq<Byte>)
    requires at + |src| <= |b|
    ensures |r| == |b|
  {
    b[..at] + src + b[at + |src|..]
  }

  lemma {:induction false} PutParts(b: seq<Byte>, at: nat, src: seq<Byte>)
    requires at + |src| <= |b|
    ensures var r, e := Put(b, at, src), at + |src|;
      r[..at] == b[..at] && r[at .. e] == src && r[e..] == b[e..]
  {
  }

  /** ARQ_MEMCPY to place `at` of a buffer. */
  method CopyInto(buf: array<Byte>, at: nat, src: seq<Byte>)
    requires at + |src| <= buf.Length
    modifies buf
    ensures forall k :: 0 <= k < buf.Length ==>
      buf[k] == if at <= k < at + |src| then src[k - at] else old(buf[k])
    ensures buf[..] == Put(old(buf[..]), at, src)
  {
    for i := 0 to |src|
      invariant forall k :: 0 <= k < buf.Length ==>
        buf[k] == if at <= k < at + i then src[k - at] else old(buf[k])
    {
      buf[at + i] := src[i];
    }
  }
}

/** Cutting a byte stream back into frames, however it is chunked. */
module FrameStream {
  import opened Messages
  import opened Cobs
  import opened Frames

  /** Bytes gathered so far, and whether they are a complete frame. */
  datatype Acc = Acc(bytes: seq<Byte>, full: bool)

  const EMPTY := Acc([], false)

  /** The first place that holds a zero, or the length. */
  function FirstZero(s: seq<Byte>): (z: nat)
    ensures z <= |s|
    ensures z < |s| ==> s[z] == 0
    ensures forall k :: 0 <= k < z ==> s[k] != 0
  {
    if s == [] || s[0] == 0 then 0 else 1 + FirstZero(s[1..])
  }

  lemma {:induction false} FirstZeroIs(s: seq<Byte>, z: nat)
    requires z <= |s| && (z < |s| ==> s[z] == 0) && forall k :: 0 <= k < z ==> s[k] != 0
    ensures FirstZero(s) == z
  {
  }

  /** How many bytes of src a fill takes: up to a zero, the end of src, or the end of the buffer. */
  function FillCount(a: Acc, cap: nat, src: seq<Byte>): (n: nat)
    requires |a.bytes| <= cap
    ensures n <= |src| && |a.bytes| + n <= cap
  {
    if a.full then 0
    else
      var room := src[..Min(|src|, cap - |a.bytes|)];
      var z := FirstZero(room);
      if z < |room| then z + 1 else |room|
  }

  function Filled(a: Acc, cap: nat, src: seq<Byte>): (r: Acc)
    requires |a.bytes| <= cap
    ensures |r.bytes| <= cap
  {
    var n := FillCount(a, cap, src);
    Acc(a.bytes + src[..n], a.full || (n > 0 && src[n - 1] == 0))
  }

  ghost predicate ZeroFree(b: seq<Byte>) {
    forall i :: 0 <= i < |b| ==> b[i] != 0
  }

  /** Complete bytes are a frame; others hold no zero yet. */
  ghost predicate Sound(a: Acc) {
    if a.full then Framed(a.bytes) else ZeroFree(a.bytes)
  }

  /** Whatever bytes arrive, what is marked complete has its only zero at the end. */
  lemma {:induction false} FilledSound(a: Acc, cap: nat, src: seq<Byte>)
    requires Sound(a) && |a.bytes| <= cap
    ensures Sound(Filled(a, cap, src))
  {
    var n, r := FillCount(a, cap, src), Filled(a, cap, src);
    if !a.full {
      assert forall i :: |a.bytes| <= i < |r.bytes| ==> r.bytes[i] == src[i - |a.bytes|];
    } else {
      assert r.bytes == a.bytes;
    }
  }

  /**
   * A fill takes bytes as long as it can: into a buffer without a complete frame it takes the first
   * bytes up to a zero, and without one all of them or as many as there is room for.
   */
  lemma {:induction false} FillIsMaximal(a: Acc, cap: nat, src: seq<Byte>)
    requires |a.bytes| <= cap && !a.full
    ensures var n, r := FillCount(a, cap, src), Filled(a, cap, src);
      && r.bytes == a.bytes + src[..n]
      && (forall k :: 0 <= k < n - 1 ==> src[k] != 0)
      && (r.full <==> n > 0 && src[n - 1] == 0)
      && (r.full || n == |src| || |r.bytes| == cap)
  {
  }

  /** A buffer that is full without a zero in it takes nothing more and never becomes a frame, whatever comes. */
  lemma {:induction false} OverfullSticks(a: Acc, cap: nat, src: seq<Byte>)
    requires |a.bytes| == cap && !a.full
    ensures FillCount(a, cap, src) == 0 && Filled(a, cap, src) == a
  {
    assert src[..0] == [] && a.bytes + [] == a.bytes;
  }

  // ---- Feeding chunks ----

  /** Fills from a chunk until it is used up, taking out each complete frame. */
  function Feed(a: Acc, cap: nat, src: seq<Byte>): (r: (Acc, seq<seq<Byte>>))
    requires |a.bytes| <= cap && !a.full
    ensures |r.0.bytes| <= cap && !r.0.full
    decreases |src|
  {
    var n, filled := FillCount(a, cap, src), Filled(a, cap, src);
    if filled.full then
      var (b, fs) := Feed(EMPTY, cap, src[n..]);
      (b, [filled.bytes] + fs)
    else
      (filled, [])
  }

  /** r is what reading frame f reports, with the rest of the buffer left from earlier frames. */
  ghost predicate ReadAs(r: Reading, f: seq<Byte>, cap: nat, sum: seq<Byte> -> Word) {
    exists stale: seq<Byte> ::
      && |f| + |stale| == cap > HEADER_SIZE
      && Framed((f + stale)[..|f|])
      && r == ReadBuffer(f + stale, |f|, sum)
  }

  ghost predicate AllReadAs(rs: seq<Reading>, fs: seq<seq<Byte>>, cap: nat, sum: seq<Byte> -> Word) {
    |rs| == |fs| && forall i :: 0 <= i < |rs| ==> ReadAs(rs[i], fs[i], cap, sum)
  }

  /** A fill that completes a frame took at least its last byte. */
  lemma {:induction false} FullTakes(a: Acc, cap: nat, src: seq<Byte>)
    requires |a.bytes| <= cap && !a.full
    ensures Filled(a, cap, src).full ==> FillCount(a, cap, src) > 0
  {
  }

  lemma {:induction false} FilledFull(a: Acc, cap: nat, src: seq<Byte>)
    requires |a.bytes| <= cap && a.full
    ensures FillCount(a, cap, src) == 0 && Filled(a, cap, src) == a
  {
    assert a.bytes + src[..0] == a.bytes;
  }

  /** A fill that stopped after n bytes, at a zero or for want of bytes or room. */
  lemma {:induction false} FilledIs(a: Acc, cap: nat, src: seq<Byte>, n: nat, full: bool)
    requires |a.bytes| <= cap && !a.full
    requires var max := Min(|src|, cap - |a.bytes|);
      n <= max && if full then n > 0 && src[n - 1] == 0 else n == max
    requires forall k :: 0 <= k < (if full then n - 1 else n) ==> src[k] != 0
    ensures FillCount(a, cap, src) == n && Filled(a, cap, src) == Acc(a.bytes + src[..n], full)
  {
    FirstZeroIs(src[..Min(|src|, cap - |a.bytes|)], if full then n - 1 else n);
  }

  lemma {:induction false} Appended(was: seq<Byte>, now: seq<Byte>, len: nat, src: seq<Byte>, n: nat)
    requires |was| == |now| && n <= |src| && len + n <= |now|
    requires forall k :: 0 <= k < |now| ==> now[k] == if len <= k < len + n then src[k - len] else was[k]
    ensures now[..len + n] == was[..len] + src[..n] && now[len + n..] == was[len + n..]
  {
  }

  class RecvFrame {
    const buf: array<Byte>
    var len: nat
    var full: bool

    ghost predicate Valid()
      reads this, buf
    {
      len <= buf.Length && Sound(Acc(buf[..len], full))
    }

    ghost function View(): Acc
      requires len <= buf.Length
      reads this, buf
    {
      Acc(buf[..len], full)
    }

    constructor (cap: nat)
      ensures Valid() && View() == EMPTY && buf.Length == cap && fresh(buf)
    {
      buf := new Byte[cap];
      len, full := 0, false;
    }

    /** arq__recv_frame_rst. */
    method Rst()
      modifies this
      ensures Valid() && View() == EMPTY
    {
      len, full := 0, false;
    }

    /** arq__recv_frame_fill. */
    method Fill(src: seq<Byte>) returns (n: nat)
      requires Valid()
      modifies this, buf
      ensures Valid()
      ensures n == FillCount(old(View()), buf.Length, src)
      ensures View() == Filled(old(View()), buf.Length, src)
      ensures buf[len..] == old(buf[..])[len..]
    {
      hide Sound, FirstZero, FillCount, Filled;
      FilledSound(View(), buf.Length, src);
      if full {
        FilledFull(View(), buf.Length, src);
        return 0;
      }
      var max := Min(|src|, buf.Length - len);
      ghost var was := buf[..];
      n := 0;
      while n < max
        invariant 0 <= n <= max
        invariant !full && len == old(len)
        invariant forall k :: 0 <= k < n ==> src[k] != 0
        invariant forall k :: 0 <= k < buf.Length ==> buf[k] == if len <= k < len + n then src[k - len] else was[k]
      {
        buf[len + n] := src[n];
        n := n + 1;
        if src[n - 1] == 0 {
          full := true;
          break;
        }
      }
      FilledIs(old(View()), buf.Length, src, n, full);
      Appended(was, buf[..], len, src, n);
      assert buf[..][..len + n] == buf[..len + n] && buf[..][len + n..] == buf[len + n..] && was[..len] == old(buf[..len]);
      len := len + n;
    }

    /** The part of arq__recv_poll that takes a complete frame out: it is read in place and the buffer reset. */
    method Take(sum: seq<Byte> -> Word) returns (res: ReadResult, h: Header, seg: seq<Byte>)
      requires Valid() && full && HEADER_SIZE < buf.Length
      modifies this, buf
      ensures Valid() && View() == EMPTY
      ensures Reading(res, h, seg) == ReadBuffer(old(buf[..]), old(len), sum)
      ensures ReadAs(Reading(res, h, seg), old(View().bytes), buf.Length, sum)
    {
      assert buf[..][..len] == buf[..len];
      ghost var f, stale := buf[..len], buf[len..];
      assert f + stale == buf[..];
      res, h, seg := ReadFrom(buf, len, sum);
      assert ReadAs(Reading(res, h, seg), f, buf.Length, sum);
      len, full := 0, false;
    }

    /** Fills from a chunk until it is used up, reading after each complete frame. */
    method FeedChunk(src: seq<Byte>, sum: seq<Byte> -> Word) returns (rs: seq<Reading>)
      requires Valid() && !full && HEADER_SIZE < buf.Length
      modifies this, buf
      ensures Valid() && !full
      ensures View() == Feed(old(View()), buf.Length, src).0
      ensures AllReadAs(rs, Feed(old(View()), buf.Length, src).1, buf.Length, sum)
    {
      hide Sound, ReadAs, FillCount, Filled, Feed, ReadBuffer;
      var pos := 0;
      rs := [];
      ghost var fs := [];
      ghost var whole := Feed(View(), buf.Length, src);
      assert src[0..] == src && [] + whole.1 == whole.1;
      var more := true;
      while more
        invariant Valid() && !full && pos <= |src|
        invariant AllReadAs(rs, fs, buf.Length, sum)
        invariant more ==>
          var (b, gs) := Feed(View(), buf.Length, src[pos..]); whole == (b, fs + gs)
        invariant !more ==> whole == (View(), fs)
        decreases |src| - pos, more
      {
        ghost var before := View();
        var n := Fill(src[pos..]);
        FullTakes(before, buf.Length, src[pos..]);
        FeedTurn(before, buf.Length, src[pos..], n, View());
        assert src[pos..][n..] == src[pos + n..];
        pos := pos + n;
        more := full;
        if full {
          ghost var f := View().bytes;
          var res, h, seg := Take(sum);
          rs := rs + [Reading(res, h, seg)];
          assert fs + ([f] + Feed(EMPTY, buf.Length, src[pos..]).1) == (fs + [f]) + Feed(EMPTY, buf.Length, src[pos..]).1;
          fs := fs + [f];
        } else {
          assert fs + [] == fs;
        }
      }
    }
  }

  function FeedAll(a: Acc, cap: nat, chunks: seq<seq<Byte>>): (r: (Acc, seq<seq<Byte>>))
    requires |a.bytes| <= cap && !a.full
    ensures |r.0.bytes| <= cap && !r.0.full
    decreases |chunks|
  {
    if chunks == [] then (a, [])
    else
      var (b, fs) := Feed(a, cap, chunks[0]);
      var (c, gs) := FeedAll(b, cap, chunks[1..]);
      (c, fs + gs)
  }

  ghost predicate AllFramed(frames: seq<seq<Byte>>, cap: nat) {
    forall i :: 0 <= i < |frames| ==> Framed(frames[i]) && |frames[i]| <= cap
  }

  /** Bytes without a zero that start a run of frames start its first frame. */
  lemma {:induction false} StartsInFirst(b: seq<Byte>, rest: seq<Byte>, frames: seq<seq<Byte>>, cap: nat)
    requires AllFramed(frames, cap) && ZeroFree(b) && b + rest == Flatten(frames)
    ensures frames == [] ==> b == [] && rest == []
    ensures frames != [] ==>
      && |b| < |frames[0]|
      && b == frames[0][..|b|]
      && rest == frames[0][|b|..] + Flatten(frames[1..])
  {
    if frames == [] {
      assert |b + rest| == 0;
    } else {
      var f, tail := frames[0], Flatten(frames[1..]);
      assert b + rest == f + tail;
      var z := |f| - 1;
      assert (b + rest)[z] == (f + tail)[z] == 0;
      assert b == (b + rest)[..|b|] == f[..|b|];
      assert rest == (b + rest)[|b|..] == f[|b|..] + tail;
    }
  }

  /** One fill while the first frame is still incomplete. */
  lemma {:induction false} FillTakes(b: seq<Byte>, chunk: seq<Byte>, cap: nat, f: seq<Byte>)
    requires Framed(f) && |f| <= cap && |b| < |f| && b == f[..|b|]
    requires var m := |f| - |b|; chunk[..Min(|chunk|, m)] == f[|b|..][..Min(|chunk|, m)]
    ensures var n := FillCount(Acc(b, false), cap, chunk);
      && n == Min(|chunk|, |f| - |b|)
      && Filled(Acc(b, false), cap, chunk) == Acc(f[..|b| + n], |b| + n == |f|)
  {
    hide FirstZero;
    var m := |f| - |b|;
    var room := chunk[..Min(|chunk|, cap - |b|)];
    var n := Min(|chunk|, m);
    assert forall k :: 0 <= k < n ==> room[k] == chunk[..n][k] == f[|b|..][..n][k] == f[|b| + k];
    FirstZeroIs(room, if m <= |chunk| then m - 1 else |chunk|);
    assert chunk[..n] == f[|b| .. |b| + n];
  }

  lemma {:induction false} FeedNothing(b: seq<Byte>, cap: nat)
    requires |b| <= cap
    ensures Feed(Acc(b, false), cap, []) == (Acc(b, false), [])
  {
    assert b + [] == b;
  }

  /** What feeding does when a fill takes n bytes and leaves r. */
  lemma {:induction false} FeedTurn(a: Acc, cap: nat, src: seq<Byte>, n: nat, r: Acc)
    requires |a.bytes| <= cap && !a.full && n == FillCount(a, cap, src) && r == Filled(a, cap, src)
    ensures n <= |src|
    ensures !r.full ==> Feed(a, cap, src) == (r, [])
    ensures r.full ==> var (b, fs) := Feed(EMPTY, cap, src[n..]); Feed(a, cap, src) == (b, [r.bytes] + fs)
  {
    hide FillCount, Filled;
  }

  lemma {:induction false} DropBoth(x: seq<Byte>, y: seq<Byte>, n: nat)
    requires n <= |x|
    ensures (x + y)[n..] == x[n..] + y
    ensures n == |x| ==> x[n..] + y == y
  {
  }

  lemma {:induction false} TakeBoth(x: seq<Byte>, y: seq<Byte>, n: nat)
    requires n <= |x|
    ensures (x + y)[..n] == x[..n]
  {
  }

  /** A chunk that ends inside the first frame. */
  lemma {:induction false} FeedStays(b: seq<Byte>, chunk: seq<Byte>, rest: seq<Byte>, f: seq<Byte>, tail: seq<Byte>, cap: nat)
    requires Framed(f) && |f| <= cap && |b| < |f| && b == f[..|b|]
    requires chunk + rest == f[|b|..] + tail && |chunk| < |f| - |b|
    ensures var more := f[..|b| + |chunk|];
      Feed(Acc(b, false), cap, chunk) == (Acc(more, false), []) && ZeroFree(more) && more + rest == f + tail
  {
    hide FillCount, Filled, FirstZero, Feed, Framed;
    InsideParts(f, |b|, tail, chunk, rest);
    FillTakes(b, chunk, cap, f);
    FeedTurn(Acc(b, false), cap, chunk, |chunk|, Acc(f[..|b| + |chunk|], false));
    StartIsZeroFree(f, |b| + |chunk|);
  }

  lemma {:induction false} StartIsZeroFree(f: seq<Byte>, n: nat)
    requires Framed(f) && n < |f|
    ensures ZeroFree(f[..n])
  {
  }

  /** A chunk inside the rest of f, and what follows it. */
  lemma {:induction false} InsideParts(f: seq<Byte>, k: nat, tail: seq<Byte>, chunk: seq<Byte>, rest: seq<Byte>)
    requires k <= |f| && chunk + rest == f[k..] + tail && |chunk| < |f| - k
    ensures chunk[..|chunk|] == f[k..][..|chunk|] && chunk == chunk[..|chunk|]
    ensures f[..k + |chunk|] + rest == f + tail
  {
    var n := |chunk|;
    TakeBoth(chunk, rest, n);
    TakeBoth(f[k..], tail, n);
    DropBoth(chunk, rest, n);
    DropBoth(f[k..], tail, n);
    assert f == f[..k + n] + f[k..][n..];
    assert f[..k + n] + (f[k..][n..] + tail) == f + tail;
  }

  /** A chunk that holds the end of the first frame. */
  lemma {:induction false} FeedEnds(b: seq<Byte>, chunk: seq<Byte>, rest: seq<Byte>, f: seq<Byte>, tail: seq<Byte>, cap: nat)
    requires Framed(f) && |f| <= cap && |b| < |f| && b == f[..|b|]
    requires chunk + rest == f[|b|..] + tail && |chunk| >= |f| - |b|
    ensures var next := chunk[|f| - |b|..];
      next + rest == tail
      && Feed(Acc(b, false), cap, chunk) == (Feed(EMPTY, cap, next).0, [f] + Feed(EMPTY, cap, next).1)
  {
    hide FillCount, Filled, FirstZero, Feed;
    var n := |f| - |b|;
    TakeBoth(chunk, rest, n);
    TakeBoth(f[|b|..], tail, n);
    FillTakes(b, chunk, cap, f);
    assert f[..|f|] == f;
    FeedTurn(Acc(b, false), cap, chunk, n, Acc(f, true));
    DropBoth(chunk, rest, n);
    DropBoth(f[|b|..], tail, n);
  }

  /** Feeding one chunk takes out the frames that end in it and keeps the start of the next. */
  lemma {:induction false} FeedTakes(b: seq<Byte>, chunk: seq<Byte>, rest: seq<Byte>, frames: seq<seq<Byte>>, cap: nat)
    requires |b| <= cap && AllFramed(frames, cap) && ZeroFree(b)
    requires b + (chunk + rest) == Flatten(frames)
    ensures var (a, fs) := Feed(Acc(b, false), cap, chunk);
      && |fs| <= |frames| && fs == frames[..|fs|]
      && ZeroFree(a.bytes) && a.bytes + rest == Flatten(frames[|fs|..])
    decreases |chunk|
  {
    hide Feed, Framed;
    StartsInFirst(b, chunk + rest, frames, cap);
    if frames == [] {
      FeedNothing(b, cap);
      assert chunk == [];
    } else {
      var f, tail := frames[0], Flatten(frames[1..]);
      if |f| - |b| <= |chunk| {
        var next := chunk[|f| - |b|..];
        FeedEnds(b, chunk, rest, f, tail, cap);
        assert [] + (next + rest) == tail;
        FeedTakes([], next, rest, frames[1..], cap);
        var fs := Feed(EMPTY, cap, next).1;
        assert frames[..1 + |fs|] == [f] + frames[1..][..|fs|];
        assert frames[1 + |fs|..] == frames[1..][|fs|..];
      } else {
        FeedStays(b, chunk, rest, f, tail, cap);
        assert frames[0..] == frames;
      }
    }
  }

  lemma {:induction false} FeedAllTakes(b: seq<Byte>, chunks: seq<seq<Byte>>, frames: seq<seq<Byte>>, cap: nat)
    requires |b| <= cap && AllFramed(frames, cap) && ZeroFree(b)
    requires b + Flatten(chunks) == Flatten(frames)
    ensures FeedAll(Acc(b, false), cap, chunks) == (EMPTY, frames)
    decreases |chunks|
  {
    if chunks == [] {
      StartsInFirst(b, [], frames, cap);
    } else {
      FeedTakes(b, chunks[0], Flatten(chunks[1..]), frames, cap);
      var (a, fs) := Feed(Acc(b, false), cap, chunks[0]);
      FeedAllTakes(a.bytes, chunks[1..], frames[|fs|..], cap);
      assert frames == frames[..|fs|] + frames[|fs|..];
    }
  }

  /** A header with the segment it announces. */
  datatype Packet = Packet(header: Header, segment: seq<Byte>)

  ghost predicate AllSendable(ps: seq<Packet>, cap: nat) {
    forall i :: 0 <= i < |ps| ==> Sendable(ps[i].header, ps[i].segment) && FrameLen(|ps[i].segment|) <= cap
  }

  function WriteAll(ps: seq<Packet>, cap: nat, sum: seq<Byte> -> Word): (fs: seq<seq<Byte>>)
    requires AllSendable(ps, cap)
    ensures |fs| == |ps|
    ensures forall i :: 0 <= i < |ps| ==> fs[i] == WriteFrame(ps[i].header, ps[i].segment, sum)
  {
    seq(|ps|, i requires 0 <= i < |ps| => WriteFrame(ps[i].header, ps[i].segment, sum))
  }

  /**
   * Frames written one after another, fed in pieces of any size, come out as the same headers and
   * segments with success, whatever the checksum function and whatever earlier frames left in the
   * buffer behind them.
   */
  lemma {:induction false} WireRoundTrip(ps: seq<Packet>, chunks: seq<seq<Byte>>, cap: nat, sum: seq<Byte> -> Word)
    requires AllSendable(ps, cap) && Flatten(chunks) == Flatten(WriteAll(ps, cap, sum))
    ensures var (a, fs) := FeedAll(EMPTY, cap, chunks);
      && a == EMPTY && |fs| == |ps|
      && forall i, stale: seq<Byte> {:trigger fs[i], |stale|} :: 0 <= i < |ps| && |fs[i]| + |stale| == cap ==>
           && Framed((fs[i] + stale)[..|fs[i]|])
           && ReadBuffer(fs[i] + stale, |fs[i]|, sum) == Reading(Success, ps[i].header, ps[i].segment)
  {
    hide ReadBuffer, WriteFrame, Encode, Flatten;
    var frames := WriteAll(ps, cap, sum);
    forall i | 0 <= i < |ps| ensures Framed(frames[i]) && |frames[i]| <= cap {
      ReadWriteFrame(ps[i].header, ps[i].segment, sum);
    }
    assert [] + Flatten(chunks) == Flatten(frames);
    FeedAllTakes([], chunks, frames, cap);
    forall i, stale: seq<Byte> | 0 <= i < |ps| && |frames[i]| + |stale| == cap
      ensures Framed((frames[i] + stale)[..|frames[i]|])
      ensures ReadBuffer(frames[i] + stale, |frames[i]|, sum) == Reading(Success, ps[i].header, ps[i].segment)
    {
      ReadsBack(ps[i].header, ps[i].segment, stale, sum);
    }
  }

  /** What is read from the frames of a list of packets, after whatever other frames, is the packets. */
  lemma {:induction false} ReadingsArePackets(ps: seq<Packet>, cap: nat, sum: seq<Byte> -> Word, rs: seq<Reading>)
    requires AllSendable(ps, cap) && AllReadAs(rs, WriteAll(ps, cap, sum), cap, sum)
    ensures |rs| == |ps|
    ensures forall i :: 0 <= i < |ps| ==> rs[i] == Reading(Success, ps[i].header, ps[i].segment)
  {
    hide ReadBuffer, WriteFrame, Framed;
    var fs := WriteAll(ps, cap, sum);
    forall i | 0 <= i < |ps| ensures rs[i] == Reading(Success, ps[i].header, ps[i].segment) {
      assert ReadAs(rs[i], fs[i], cap, sum);
      var stale: seq<Byte> :| |fs[i]| + |stale| == cap > HEADER_SIZE && Framed((fs[i] + stale)[..|fs[i]|])
        && rs[i] == ReadBuffer(fs[i] + stale, |fs[i]|, sum);
      ReadsBack(ps[i].header, ps[i].segment, stale, sum);
    }
  }
}

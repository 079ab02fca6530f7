/** What the blocks of a layout are for: each holds exactly the array that the structures index. */
module LayoutUse {
  import opened Arith
  import opened Connection
  import opened Frames
  import opened Layout

  // The places of the blocks in the order of their allocation.
  const ARQ: nat := 0
  const SEND_RTX: nat := 1
  const SEND_MSG: nat := 2
  const SEND_BUF: nat := 3
  const RECV_ACK: nat := 4
  const RECV_MSG: nat := 5
  const RECV_BUF: nat := 6
  const SEND_FRAME: nat := 7
  const RECV_FRAME: nat := 8

  /** b is an array of n elements e: element i lies in it exactly for i below n, and it ends where the last one does. */
  ghost predicate IsArray(b: Block, n: nat, e: Block) {
    && b.align == e.align
    && (forall i: nat :: Mul(i, e.size) + e.size <= b.size <==> i < n)
    && (n > 0 ==> Mul(n - 1, e.size) + e.size == b.size)
  }

  /**
   * b holds the segments of n messages: each lies in it at the place the windows compute, and it ends
   * where the last one does.
   */
  ghost predicate IsBuffer(b: Block, n: nat, segs: nat, segLen: nat) {
    && b.align == 1
    && (forall slot: nat, seg: nat :: slot < n && seg < segs ==>
        Mul(slot, Mul(segs, segLen)) + Mul(seg, segLen) + segLen <= b.size)
    && (n > 0 && segs > 0 ==> Mul(n - 1, Mul(segs, segLen)) + Mul(segs - 1, segLen) + segLen == b.size)
  }

  /** b holds a frame with any segment of up to segLen bytes, and no more. */
  ghost predicate IsFrame(b: Block, segLen: nat) {
    b.align == 1 && forall n: nat :: FrameLen(n) <= b.size <==> n <= segLen
  }

  lemma {:induction false} TimesIsArray(n: nat, e: Block)
    requires e.size > 0
    ensures IsArray(Times(n, e), n, e)
  {
    forall i: nat ensures Mul(i, e.size) + e.size <= Mul(n, e.size) <==> i < n {
      if i < n { MulOrder(i, n, e.size); } else if i > n { MulOrder(n, i, e.size); }
    }
  }

  lemma {:induction false} MulAssoc(a: nat, b: nat, c: nat)
    ensures Mul(Mul(a, b), c) == Mul(a, Mul(b, c))
  {
    if a > 0 {
      MulAssoc(a - 1, b, c);
      MulAdd(Mul(a - 1, b), b, c);
    }
  }

  lemma {:induction false} BytesIsBuffer(n: nat, segs: nat, segLen: nat)
    ensures IsBuffer(Bytes(Mul(Mul(n, segs), segLen)), n, segs, segLen)
  {
    MulAssoc(n, segs, segLen);
    var L := Mul(segs, segLen);
    forall slot: nat, seg: nat | slot < n && seg < segs
      ensures Mul(slot, L) + Mul(seg, segLen) + segLen <= Mul(n, L)
    {
      MulOrder(slot, n, L);
      MulOrder(seg, segs, segLen);
    }
  }

  lemma {:induction false} BytesIsArray(n: nat)
    ensures IsArray(Bytes(n), n, Block(1, 1))
  {
    forall i: nat ensures Mul(i, 1) == i { MulIsProduct(i, 1); }
  }

  /**
   * Each block is what it is for: the structure itself, the timers and records of the send window and
   * its bytes, the flags and records of the receive window and its bytes, and the two frames, each of
   * the size that the window it belongs to needs, and no larger.
   */
  lemma {:induction false} BlocksHold(cfg: Sizes, pl: Platform)
    requires cfg.Checked() && pl.time.size > 0 && pl.msg.size > 0
    ensures var bs := Blocks(cfg, pl);
      && bs[ARQ] == pl.arq
      && IsArray(bs[SEND_RTX], cfg.sendCap, pl.time) && IsArray(bs[SEND_MSG], cfg.sendCap, pl.msg)
      && IsBuffer(bs[SEND_BUF], cfg.sendCap, cfg.segs, cfg.segLen)
      && IsArray(bs[RECV_ACK], cfg.recvCap, Block(1, 1)) && IsArray(bs[RECV_MSG], cfg.recvCap, pl.msg)
      && IsBuffer(bs[RECV_BUF], cfg.recvCap, cfg.segs, cfg.segLen)
      && IsFrame(bs[SEND_FRAME], cfg.segLen) && IsFrame(bs[RECV_FRAME], cfg.segLen)
  {
    hide Mul, IsArray, IsBuffer;
    TimesIsArray(cfg.sendCap, pl.time);
    TimesIsArray(cfg.sendCap, pl.msg);
    TimesIsArray(cfg.recvCap, pl.msg);
    BytesIsBuffer(cfg.sendCap, cfg.segs, cfg.segLen);
    BytesIsBuffer(cfg.recvCap, cfg.segs, cfg.segLen);
    BytesIsArray(cfg.recvCap);
  }

  /**
   * Every element of every array, wherever the seat is: it lies in the seat, in its own block and in
   * no other, and, if elements are as long as a multiple of their alignment, at an aligned address.
   */
  lemma {:induction false} ElementsPlaced(cfg: Sizes, pl: Platform, base: nat, room: UInt, k: nat, n: nat, e: Block, i: nat)
    requires Fits(cfg, pl) && base > 0
    requires forall j :: 0 <= j < 9 ==> Rem(base, Blocks(cfg, pl)[j].align) == 0
    requires k < 9 && IsArray(Blocks(cfg, pl)[k], n, e) && e.align > 0 && Rem(e.size, e.align) == 0 && i < n
    ensures var bs := Blocks(cfg, pl); var r := Place(Alloc(base, 0, room), bs, 9);
      r.ok ==>
        && var p := r.ptrs[k] + Mul(i, e.size);
        && base <= p && p + e.size <= base + room && Rem(p, e.align) == 0
        && forall j :: 0 <= j < 9 && j != k ==> p + e.size <= r.ptrs[j] || r.ptrs[j] + bs[j].size <= p
  {
    hide Rem, Mul, Place, BlockOk, End, Blocks;
    AllocSucceedsIff(cfg, pl, base, room);
    var r := Place(Alloc(base, 0, room), Blocks(cfg, pl), 9);
    if r.ok { StepsAligned(r.ptrs[k], i, e.size, e.align); }
  }

  lemma {:induction false} StepsAligned(p: nat, i: nat, size: nat, align: nat)
    requires align > 0 && Rem(p, align) == 0 && Rem(size, align) == 0
    ensures Rem(p + Mul(i, size), align) == 0
  {
    if i > 0 {
      StepsAligned(p, i - 1, size, align);
      RemAdd(p + Mul(i - 1, size), size, align);
      assert (0 + size) == size;
    }
  }
}

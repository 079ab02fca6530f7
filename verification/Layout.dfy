/**
 * How arq_init lays its structures out in the memory it is given: a linear allocator that never
 * frees. Pointers are addresses, and 0 is null.
 */
module Layout {
  import opened Arith
  import opened Connection
  import opened Frames

  // ---- The linear allocator ----

  /** `x & ~(align - 1)` for a power of two: the low bits of x are its remainder. */
  function ClearLow(x: nat, align: nat): (y: nat)
    requires align > 0
    ensures y <= x
  {
    RemAtMost(x, align);
    x - Rem(x, align)
  }

  /** The sum of two unsigned words. */
  function Add32(x: UInt, y: UInt): UInt {
    if x + y <= UINT_MAX then x + y else x + y - UINT_MAX - 1
  }

  datatype Alloc = Alloc(base: nat, size: UInt, capacity: UInt)

  /** A block to allocate. */
  datatype Block = Block(size: nat, align: nat)

  /** The allocator asks for a size, and an alignment that is a power of two up to 32. */
  predicate BlockOk(b: Block) {
    0 < b.size <= UINT_MAX && b.align in {1, 2, 4, 8, 16, 32}
  }

  /** One allocation: the new state, and the address or null. */
  function Take(a: Alloc, b: Block): (r: (Alloc, nat))
    requires BlockOk(b)
  {
    var seat := ClearLow(Add32(a.size, b.align - 1), b.align);
    var size := Add32(seat, b.size);
    if size > a.capacity then (a, 0) else (a.(size := size), a.base + seat)
  }

  class LinAlloc {
    const base: nat
    const capacity: UInt
    var size: UInt

    ghost function View(): Alloc
      reads this
    {
      Alloc(base, size, capacity)
    }

    /** arq__lin_alloc_init. */
    constructor (base: nat, capacity: UInt)
      ensures View() == Alloc(base, 0, capacity)
    {
      this.base, this.capacity, size := base, capacity, 0;
    }

    /** arq__lin_alloc_alloc. */
    method Allocate(len: nat, align: nat) returns (p: nat)
      requires BlockOk(Block(len, align))
      modifies this
      ensures (View(), p) == Take(old(View()), Block(len, align))
    {
      hide ClearLow, Rem;
      var seat := ClearLow(Add32(size, align - 1), align);
      var newSize := Add32(seat, len);
      if newSize > capacity {
        return 0;
      }
      size := newSize;
      return base + seat;
    }
  }

  // ---- Where blocks go ----

  /** The least multiple of align from x on. */
  function RoundUp(x: nat, align: nat): (y: nat)
    requires align > 0
    ensures x <= y < x + align
  {
    if Rem(x, align) == 0 then x else x + align - Rem(x, align)
  }

  ghost predicate BlocksOk(bs: seq<Block>) {
    forall i :: 0 <= i < |bs| ==> BlockOk(bs[i])
  }

  /** Offset of block i. */
  function Seat(bs: seq<Block>, i: nat): nat
    requires i < |bs| && BlocksOk(bs)
    decreases i, 1
  {
    RoundUp(End(bs, i), bs[i].align)
  }

  /** Offset behind the first n blocks. */
  function End(bs: seq<Block>, n: nat): nat
    requires n <= |bs| && BlocksOk(bs)
    decreases n, 0
  {
    if n == 0 then 0 else Seat(bs, n - 1) + bs[n - 1].size
  }

  /** The first n allocations: the state, the addresses, and whether none failed. */
  datatype Placement = Placement(alloc: Alloc, ptrs: seq<nat>, ok: bool)

  /** null counts as failure, as it does in the code: a block at address 0 is one too. */
  function Place(a: Alloc, bs: seq<Block>, n: nat): (r: Placement)
    requires n <= |bs| && BlocksOk(bs)
    ensures |r.ptrs| == n
  {
    if n == 0 then Placement(a, [], true)
    else
      var before := Place(a, bs, n - 1);
      var (alloc, p) := Take(before.alloc, bs[n - 1]);
      Placement(alloc, before.ptrs + [p], before.ok && p != 0)
  }

  lemma {:induction false} RemAtMost(x: nat, m: nat)
    requires m > 0
    ensures Rem(x, m) <= x
  {
    if x >= m { RemAtMost(x - m, m); }
  }

  /** Rounding up is adding align - 1 and clearing the low bits. */
  lemma {:induction false} RoundUpIs(x: nat, align: nat)
    requires align > 0
    ensures ClearLow(x + align - 1, align) == RoundUp(x, align)
    ensures Rem(RoundUp(x, align), align) == 0
  {
    RemCases(x, align - 1, align);
    if Rem(x, align) > 0 { RemCases(x, align - Rem(x, align), align); }
  }

  /** A multiple of the alignment that is an unsigned word leaves room for the bits to be cleared. */
  lemma {:induction false} MultipleBelow(y: nat, align: nat)
    requires align in {1, 2, 4, 8, 16, 32} && y <= UINT_MAX && Rem(y, align) == 0
    ensures y + align - 1 <= UINT_MAX
  {
    var d := UINT_MAX + 1 - y;
    WordMultiple(align);
    if d < align { RemCases(y, d, align); }
  }

  lemma {:induction false} WordMultiple(align: nat)
    requires align in {1, 2, 4, 8, 16, 32}
    ensures Rem(UINT_MAX + 1, align) == 0
  {
    SameAsOperators(UINT_MAX + 1, align);
  }

  /** An allocation whose end is an unsigned word succeeds exactly when that end is within the capacity. */
  lemma {:induction false} TakeIs(a: Alloc, b: Block)
    requires BlockOk(b) && RoundUp(a.size, b.align) + b.size <= UINT_MAX
    ensures var seat := RoundUp(a.size, b.align);
      Take(a, b) == if seat + b.size <= a.capacity then (a.(size := seat + b.size), a.base + seat) else (a, 0)
  {
    RoundUpIs(a.size, b.align);
    MultipleBelow(RoundUp(a.size, b.align), b.align);
  }

  lemma {:induction false} EndGrows(bs: seq<Block>, i: nat, n: nat)
    requires i <= n <= |bs| && BlocksOk(bs)
    ensures End(bs, i) <= End(bs, n)
    decreases n - i
  {
    hide Rem;
    if i < n { EndGrows(bs, i, n - 1); }
  }

  /** While everything fits, block i is at its offset. */
  lemma {:induction false} PlaceFits(a: Alloc, bs: seq<Block>, n: nat)
    requires n <= |bs| && BlocksOk(bs) && a.size == 0 && End(bs, n) <= a.capacity
    ensures var r := Place(a, bs, n);
      && r.alloc == a.(size := End(bs, n))
      && (forall i :: 0 <= i < n ==> r.ptrs[i] == a.base + Seat(bs, i))
      && (a.base > 0 ==> r.ok)
  {
    hide Rem, RoundUp, Take;
    if n > 0 {
      EndGrows(bs, n - 1, n);
      PlaceFits(a, bs, n - 1);
      assert RoundUp(End(bs, n - 1), bs[n - 1].align) + bs[n - 1].size == End(bs, n);
      TakeIs(Place(a, bs, n - 1).alloc, bs[n - 1]);
    }
  }

  /** Once something does not fit, the placement has failed, even if later blocks fit. */
  lemma {:induction false} PlaceFails(a: Alloc, bs: seq<Block>, n: nat)
    requires n <= |bs| && BlocksOk(bs) && a.size == 0 && a.capacity < End(bs, n) <= UINT_MAX
    ensures !Place(a, bs, n).ok
  {
    hide Rem, RoundUp, Take;
    EndGrows(bs, n - 1, n);
    if a.capacity < End(bs, n - 1) {
      PlaceFails(a, bs, n - 1);
    } else {
      PlaceFits(a, bs, n - 1);
      assert RoundUp(End(bs, n - 1), bs[n - 1].align) + bs[n - 1].size == End(bs, n);
      TakeIs(Place(a, bs, n - 1).alloc, bs[n - 1]);
    }
  }

  // ---- The structures of arq_t ----

  /** Sizes and alignments the compiler chooses. */
  datatype Platform = Platform(arq: Block, time: Block, msg: Block)

  /** The parts of arq_cfg_t that decide sizes. */
  datatype Sizes = Sizes(segLen: nat, segs: nat, sendCap: nat, recvCap: nat) {
    /** What arq__check_cfg asks of them. */
    predicate Checked() {
      segLen > 0 && segs > 0 && sendCap > 0 && recvCap > 0
    }
  }

  function Times(n: nat, b: Block): Block {
    Block(Mul(n, b.size), b.align)
  }

  function Bytes(n: nat): Block {
    Block(n, 1)
  }

  /** The nine blocks, in order. */
  function Blocks(cfg: Sizes, pl: Platform): (bs: seq<Block>)
    ensures |bs| == 9
  {
    [ pl.arq,
      Times(cfg.sendCap, pl.time),
      Times(cfg.sendCap, pl.msg),
      Bytes(Mul(Mul(cfg.sendCap, cfg.segs), cfg.segLen)),
      Bytes(cfg.recvCap),
      Times(cfg.recvCap, pl.msg),
      Bytes(Mul(Mul(cfg.recvCap, cfg.segs), cfg.segLen)),
      Bytes(FrameLen(cfg.segLen)),
      Bytes(FrameLen(cfg.segLen)) ]
  }

  /** No size overflows an unsigned word. */
  ghost predicate Fits(cfg: Sizes, pl: Platform) {
    && BlockOk(pl.arq) && BlockOk(pl.time) && BlockOk(pl.msg) && cfg.Checked()
    && BlocksOk(Blocks(cfg, pl))
    && End(Blocks(cfg, pl), 9) <= UINT_MAX
  }

  /** arq__alloc: the address of arq_t or null, and the addresses of all nine blocks. */
  method ArqAlloc(cfg: Sizes, pl: Platform, la: LinAlloc) returns (arq: nat, ptrs: seq<nat>)
    requires Fits(cfg, pl)
    modifies la
    ensures var r := Place(old(la.View()), Blocks(cfg, pl), 9);
      la.View() == r.alloc && ptrs == r.ptrs && arq == if r.ok then r.ptrs[0] else 0
  {
    hide Rem, Mul, Take, End, Seat, BlockOk, FrameLen, Place;
    ghost var bs, a := Blocks(cfg, pl), la.View();
    PlaceFirst(a, bs);
    var ok, p := true, 0;
    ptrs := [];
    PlaceNext(a, bs, 0);
    p := la.Allocate(pl.arq.size, pl.arq.align);  // the arq_t itself
    ok, ptrs := ok && p != 0, ptrs + [p];
    assert Place(a, bs, 1) == Placement(la.View(), ptrs, ok);
    PlaceNext(a, bs, 1);
    p := la.Allocate(Mul(cfg.sendCap, pl.time.size), pl.time.align);  // send_wnd.rtx
    ok, ptrs := ok && p != 0, ptrs + [p];
    assert Place(a, bs, 2) == Placement(la.View(), ptrs, ok);
    PlaceNext(a, bs, 2);
    p := la.Allocate(Mul(cfg.sendCap, pl.msg.size), pl.msg.align);  // send_wnd.w.msg
    ok, ptrs := ok && p != 0, ptrs + [p];
    assert Place(a, bs, 3) == Placement(la.View(), ptrs, ok);
    PlaceNext(a, bs, 3);
    p := la.Allocate(Mul(Mul(cfg.sendCap, cfg.segs), cfg.segLen), 1);  // send_wnd.w.buf
    ok, ptrs := ok && p != 0, ptrs + [p];
    assert Place(a, bs, 4) == Placement(la.View(), ptrs, ok);
    PlaceNext(a, bs, 4);
    p := la.Allocate(cfg.recvCap, 1);  // recv_wnd.ack
    ok, ptrs := ok && p != 0, ptrs + [p];
    assert Place(a, bs, 5) == Placement(la.View(), ptrs, ok);
    PlaceNext(a, bs, 5);
    p := la.Allocate(Mul(cfg.recvCap, pl.msg.size), pl.msg.align);  // recv_wnd.w.msg
    ok, ptrs := ok && p != 0, ptrs + [p];
    assert Place(a, bs, 6) == Placement(la.View(), ptrs, ok);
    PlaceNext(a, bs, 6);
    p := la.Allocate(Mul(Mul(cfg.recvCap, cfg.segs), cfg.segLen), 1);  // recv_wnd.w.buf
    ok, ptrs := ok && p != 0, ptrs + [p];
    assert Place(a, bs, 7) == Placement(la.View(), ptrs, ok);
    PlaceNext(a, bs, 7);
    p := la.Allocate(FrameLen(cfg.segLen), 1);  // send_frame.buf
    ok, ptrs := ok && p != 0, ptrs + [p];
    assert Place(a, bs, 8) == Placement(la.View(), ptrs, ok);
    PlaceNext(a, bs, 8);
    p := la.Allocate(FrameLen(cfg.segLen), 1);  // recv_frame.buf
    ok, ptrs := ok && p != 0, ptrs + [p];
    assert Place(a, bs, 9) == Placement(la.View(), ptrs, ok);
    arq := if ok then ptrs[0] else 0;
  }

  lemma {:induction false} PlaceFirst(a: Alloc, bs: seq<Block>)
    requires BlocksOk(bs)
    ensures Place(a, bs, 0) == Placement(a, [], true)
  {
  }

  lemma {:induction false} PlaceNext(a: Alloc, bs: seq<Block>, n: nat)
    requires n < |bs| && BlocksOk(bs)
    ensures var r := Place(a, bs, n); var (alloc, p) := Take(r.alloc, bs[n]);
      Place(a, bs, n + 1) == Placement(alloc, r.ptrs + [p], r.ok && p != 0)
  {
    hide Take;
  }

  /** arq_required_size: a dry run on a null base with all the capacity there can be. */
  method RequiredSize(cfg: Sizes, pl: Platform) returns (size: nat)
    requires Fits(cfg, pl)
    ensures size == End(Blocks(cfg, pl), 9)
  {
    hide Rem, Mul, End;
    var la := new LinAlloc(0, UINT_MAX);
    PlaceFits(la.View(), Blocks(cfg, pl), 9);
    var _, _ := ArqAlloc(cfg, pl, la);
    size := la.size;
  }

  /** Block i occupies the addresses from p to p + size. */
  ghost predicate LaidOut(bs: seq<Block>, ptrs: seq<nat>, base: nat, room: nat) {
    && |ptrs| == |bs|
    && (forall i :: 0 <= i < |bs| ==> bs[i].align > 0 && Rem(ptrs[i], bs[i].align) == 0)
    && (forall i :: 0 <= i < |bs| ==> base <= ptrs[i] && ptrs[i] + bs[i].size <= base + room)
    && (forall i, j :: 0 <= i < j < |bs| ==> ptrs[i] + bs[i].size <= ptrs[j])
  }

  /**
   * On a seat whose address is a multiple of every alignment, initialisation succeeds exactly when
   * the seat is at least as large as the required size; then every block is aligned, inside the
   * seat, and apart from the others.
   */
  lemma {:induction false} AllocSucceedsIff(cfg: Sizes, pl: Platform, base: nat, room: UInt)
    requires Fits(cfg, pl) && base > 0
    requires forall i :: 0 <= i < 9 ==> Rem(base, Blocks(cfg, pl)[i].align) == 0
    ensures var bs := Blocks(cfg, pl); var r := Place(Alloc(base, 0, room), bs, 9);
      && (r.ok <==> room >= End(bs, 9))
      && (r.ok ==> r.ptrs[0] != 0 && LaidOut(bs, r.ptrs, base, room))
  {
    hide Rem, Mul, RoundUp, Take, Place, End, Seat, BlockOk;
    var bs, a := Blocks(cfg, pl), Alloc(base, 0, room);
    if room < End(bs, 9) {
      PlaceFails(a, bs, 9);
    } else {
      PlaceFits(a, bs, 9);
      LayoutIs(bs, 9, base, room, Place(a, bs, 9).ptrs);
    }
  }

  lemma {:induction false} LayoutIs(bs: seq<Block>, n: nat, base: nat, room: nat, ptrs: seq<nat>)
    requires n == |bs| == |ptrs| && BlocksOk(bs) && End(bs, n) <= room
    requires forall i :: 0 <= i < n ==> ptrs[i] == base + Seat(bs, i) && bs[i].align > 0 && Rem(base, bs[i].align) == 0
    ensures LaidOut(bs, ptrs, base, room)
  {
    hide Rem, RoundUp, End, Seat, BlockOk;
    forall i | 0 <= i < n ensures bs[i].align > 0 && Rem(ptrs[i], bs[i].align) == 0 {
      SeatAligned(bs, i, base);
    }
    forall i | 0 <= i < n ensures base <= ptrs[i] && ptrs[i] + bs[i].size <= base + room {
      EndStep(bs, i);
      EndGrows(bs, i + 1, n);
    }
    forall i, j | 0 <= i < j < n ensures ptrs[i] + bs[i].size <= ptrs[j] {
      SeatsApart(bs, i, j);
    }
  }

  lemma {:induction false} SeatAligned(bs: seq<Block>, i: nat, base: nat)
    requires i < |bs| && BlocksOk(bs) && bs[i].align > 0 && Rem(base, bs[i].align) == 0
    ensures Rem(base + Seat(bs, i), bs[i].align) == 0
  {
    hide Rem, RoundUp, End;
    RoundUpIs(End(bs, i), bs[i].align);
    RemAdd(base, Seat(bs, i), bs[i].align);
    RemTwice(Seat(bs, i), bs[i].align);
  }

  lemma {:induction false} SeatsApart(bs: seq<Block>, i: nat, j: nat)
    requires i < j < |bs| && BlocksOk(bs)
    ensures Seat(bs, i) + bs[i].size <= Seat(bs, j)
  {
    hide Rem, RoundUp, End;
    EndStep(bs, i);
    EndGrows(bs, i + 1, j);
  }

  lemma {:induction false} EndStep(bs: seq<Block>, i: nat)
    requires i < |bs| && BlocksOk(bs)
    ensures End(bs, i + 1) == Seat(bs, i) + bs[i].size
  {
  }

  lemma {:induction false} RemTwice(x: nat, m: nat)
    requires m > 0 && Rem(x, m) == 0
    ensures Rem(0 + x, m) == 0
  {
  }
}

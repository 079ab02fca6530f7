/** Reading out of the receive window. */
module RecvReading {
  import opened Arith
  import opened AckVec
  import opened Messages
  import opened RecvWindow
  import opened RecvInvariant

  lemma {:induction false} CopySlot(sh: Shape, w: RecvWnd, msgs: seq<seq<Byte>>, rb: nat)
    requires Inv(sh, w, msgs, rb)
    ensures w.slide < w.size ==> CopyPlace(sh, w) == w.slide
    ensures w.slide == w.size ==> !Readable(w.slots[CopyPlace(sh, w)])
  {
    if w.slide == w.size {
      assert SlotHolds(sh, w, msgs, rb, CopyPlace(sh, w));
      if w.slide == sh.cap { assert Rem(0, sh.cap) == 0; }
    }
  }

  /** A readable message is its source message. */
  lemma {:induction false} ReadableIs(sh: Shape, w: RecvWnd, msgs: seq<seq<Byte>>, rb: nat, j: nat)
    requires Inv(sh, w, msgs, rb) && w.slide <= j < w.size && Readable(w.slots[j])
    ensures w.slots[j].len == |msgs[rb + j]| <= |w.slots[j].data| && w.slots[j].data[..w.slots[j].len] == msgs[rb + j]
  {
    assert SlotHolds(sh, w, msgs, rb, j);
    assert SlotOk(sh, w.slots[j]);
    CompleteSlot(sh, w.slots[j], msgs[rb + j]);
  }

  /** Using up a message keeps the invariant. */
  lemma {:induction false} NextMessageKeeps(sh: Shape, w: RecvWnd, msgs: seq<seq<Byte>>, rb: nat)
    requires Inv(sh, w, msgs, rb) && w.slide < w.size && Readable(w.slots[w.slide])
    ensures Inv(sh, NextMessage(sh, w), msgs, rb)
    ensures NextMessage(sh, w).size == w.size && NextMessage(sh, w).slide == w.slide + 1
    ensures forall q: nat, seg: nat :: Got(w, rb, q, seg) ==> Got(NextMessage(sh, w), rb, q, seg)
  {
    hide Mul, Marks, Has, Holds, SlotOk, Rem;
    CopySlot(sh, w, msgs, rb);
    NextMessageValid(sh, w);
    var w' := NextMessage(sh, w);
    forall j: nat | j < |w'.slots| ensures SlotHolds(sh, w', msgs, rb, j) {
      assert SlotHolds(sh, w, msgs, rb, j);
    }
  }

  lemma {:induction false} FlattenNext(msgs: seq<seq<Byte>>, n: nat)
    requires n < |msgs|
    ensures Flatten(msgs[..n + 1]) == Flatten(msgs[..n]) + msgs[n]
  {
    assert msgs[..n + 1] == msgs[..n] + [msgs[n]];
    FlattenConcat(msgs[..n], [msgs[n]]);
    FlattenOne(msgs[n]);
  }

  lemma {:induction false} DeliveredOk(sh: Shape, w: RecvWnd, msgs: seq<seq<Byte>>, rb: nat)
    requires Inv(sh, w, msgs, rb)
    ensures rb + w.slide <= |msgs|
    ensures w.copyOfs > 0 ==> rb + w.slide < |msgs| && w.copyOfs < |msgs[rb + w.slide]|
  {
    if w.copyOfs > 0 { ReadableIs(sh, w, msgs, rb, w.slide); }
  }

  /** What a read of c bytes inside the current message, or to its end, takes out of the message. */
  lemma {:induction false} DeliveredMore(sh: Shape, w: RecvWnd, msgs: seq<seq<Byte>>, rb: nat, c: nat)
    requires Inv(sh, w, msgs, rb) && w.slide < w.size && Readable(w.slots[w.slide])
    requires w.copyOfs + c <= w.slots[w.slide].len
    ensures w.slots[w.slide].len == |msgs[rb + w.slide]| <= |w.slots[w.slide].data|
    ensures var s, m := w.slots[w.slide], msgs[rb + w.slide];
      var bytes := s.data[w.copyOfs .. w.copyOfs + c];
      && w.copyOfs <= |m|
      && (w.copyOfs + c < s.len ==> Delivered(w.(copyOfs := w.copyOfs + c), msgs, rb) == Delivered(w, msgs, rb) + bytes)
      && (w.copyOfs + c == s.len ==> Delivered(NextMessage(sh, w), msgs, rb) == Delivered(w, msgs, rb) + bytes)
  {
    hide Mul, Marks, Has, Holds, SlotOk, Rem, Flatten, SlotHolds;
    ReadableIs(sh, w, msgs, rb, w.slide);
    var s, m := w.slots[w.slide], msgs[rb + w.slide];
    SlicesJoin(s.data, m, w.copyOfs, c);
    if w.copyOfs + c < s.len {
      Assoc(Flatten(msgs[..rb + w.slide]), m[..w.copyOfs], m[w.copyOfs .. w.copyOfs + c]);
    } else {
      FlattenNext(msgs, rb + w.slide);
      Assoc(Flatten(msgs[..rb + w.slide]), m[..w.copyOfs], m[w.copyOfs .. w.copyOfs + c]);
    }
  }

  lemma {:induction false} SlicesJoin(data: seq<Byte>, m: seq<Byte>, ofs: nat, c: nat)
    requires |m| <= |data| && data[..|m|] == m && ofs + c <= |m|
    ensures data[ofs .. ofs + c] == m[ofs .. ofs + c]
    ensures m[..ofs + c] == m[..ofs] + m[ofs .. ofs + c]
    ensures m[..|m|] == m && m[..0] == []
  {
    var x, y := data[ofs .. ofs + c], m[ofs .. ofs + c];
    forall k | 0 <= k < c ensures x[k] == y[k] {
      assert data[..|m|][ofs + k] == m[ofs + k];
    }
  }

  /** One turn of a read. */
  lemma {:induction false} ReadTurn(sh: Shape, w: RecvWnd, max: nat, n: nat)
    requires Valid(sh, w)
    ensures var s := w.slots[CopyPlace(sh, w)];
      if max == 0 || n == 0 || !Readable(s) then ReadMessages(sh, w, max, n) == (w, [])
      else
        var c := Min(max, s.len - w.copyOfs);
        && w.copyOfs + c <= |s.data|
        && var x := s.data[w.copyOfs .. w.copyOfs + c];
        if w.copyOfs + c < s.len then ReadMessages(sh, w, max, n) == (w.(copyOfs := w.copyOfs + c), x)
        else
          && Valid(sh, NextMessage(sh, w))
          && var rest := ReadMessages(sh, NextMessage(sh, w), max - c, n - 1);
          ReadMessages(sh, w, max, n) == (rest.0, x + rest.1)
  {
    hide Mul, Marks, Has, Rem, NextMessage;
    SlotFits(sh, w.slots[CopyPlace(sh, w)]);
    NextMessageValid(sh, w);
  }

  /** Reading keeps the invariant, and what it returns is the continuation of what was delivered. */
  lemma {:induction false} ReadContinues(sh: Shape, w: RecvWnd, msgs: seq<seq<Byte>>, rb: nat, max: nat, n: nat)
    requires Inv(sh, w, msgs, rb)
    ensures var (w', bytes) := ReadMessages(sh, w, max, n);
      && Inv(sh, w', msgs, rb)
      && rb + w.slide <= |msgs| && rb + w'.slide <= |msgs|
      && (w.copyOfs > 0 ==> rb + w.slide < |msgs| && w.copyOfs <= |msgs[rb + w.slide]|)
      && (w'.copyOfs > 0 ==> rb + w'.slide < |msgs| && w'.copyOfs <= |msgs[rb + w'.slide]|)
      && Delivered(w', msgs, rb) == Delivered(w, msgs, rb) + bytes
      && w'.size == w.size && w'.slide >= w.slide
      && (forall q: nat, seg: nat :: Got(w, rb, q, seg) ==> Got(w', rb, q, seg))
    decreases n
  {
    hide Mul, Marks, Has, Inv, Valid, Rem, Flatten, Delivered, NextMessage, Got, ReadMessages;
    OfsBelow(sh, w, msgs, rb);
    DeliveredOk(sh, w, msgs, rb);
    CopySlot(sh, w, msgs, rb);
    ReadTurn(sh, w, max, n);
    var s := w.slots[CopyPlace(sh, w)];
    if max > 0 && n > 0 && Readable(s) {
      var c := Min(max, s.len - w.copyOfs);
      DeliveredMore(sh, w, msgs, rb, c);
      if w.copyOfs + c < s.len {
        OfsKeeps(sh, w, msgs, rb, w.copyOfs + c);
        DeliveredOk(sh, w.(copyOfs := w.copyOfs + c), msgs, rb);
        GotOfs(w, rb, w.copyOfs + c);
      } else {
        NextMessageKeeps(sh, w, msgs, rb);
        var next := NextMessage(sh, w);
        OfsBelow(sh, next, msgs, rb);
        DeliveredOk(sh, next, msgs, rb);
        ReadContinues(sh, next, msgs, rb, max - c, n - 1);
        Assoc(Delivered(w, msgs, rb), s.data[w.copyOfs .. w.copyOfs + c], ReadMessages(sh, next, max - c, n - 1).1);
      }
    }
  }

  lemma {:induction false} GotOfs(w: RecvWnd, rb: nat, ofs: nat)
    ensures forall q: nat, seg: nat :: Got(w, rb, q, seg) <==> Got(w.(copyOfs := ofs), rb, q, seg)
  {
  }

  lemma {:induction false} OfsKeeps(sh: Shape, w: RecvWnd, msgs: seq<seq<Byte>>, rb: nat, ofs: nat)
    requires Inv(sh, w, msgs, rb) && w.slide < w.size && Readable(w.slots[w.slide]) && ofs < w.slots[w.slide].len
    ensures Inv(sh, w.(copyOfs := ofs), msgs, rb)
  {
    hide Mul, Marks, Has, Holds, SlotOk;
    CopyPlaceIs(sh, w);
    var w' := w.(copyOfs := ofs);
    forall j: nat | j < |w'.slots| ensures SlotHolds(sh, w', msgs, rb, j) {
      assert SlotHolds(sh, w, msgs, rb, j);
    }
  }

  /** Using up a message hands out nothing that had not arrived. */
  lemma {:induction false} NextMessageGot(sh: Shape, w: RecvWnd, msgs: seq<seq<Byte>>, rb: nat, q: nat, seg: nat)
    requires Inv(sh, w, msgs, rb) && w.slide < w.size && Readable(w.slots[w.slide])
    requires q < |msgs| && seg < SegCount(|msgs[q]|, sh.segLen) && Got(NextMessage(sh, w), rb, q, seg)
    ensures Got(w, rb, q, seg)
  {
    hide Mul, Quo, Marks, Has, Holds, SlotOk, Rem, SlotHolds;
    CopySlot(sh, w, msgs, rb);
    if q == rb + w.slide {
      SlotKnown(sh, w, msgs, rb, w.slide);
      CompleteSlot(sh, w.slots[w.slide], msgs[q]);
    }
  }

  lemma {:induction false} SlotKnown(sh: Shape, w: RecvWnd, msgs: seq<seq<Byte>>, rb: nat, j: nat)
    requires Inv(sh, w, msgs, rb) && w.slide <= j < w.size
    ensures Holds(sh, w.slots[j], msgs[rb + j]) && |msgs[rb + j]| <= |w.slots[j].data|
  {
    hide Mul, Quo, Has, Rem, Marks, Holds, Blank;
    assert SlotHolds(sh, w, msgs, rb, j);
    assert SlotOk(sh, w.slots[j]);
  }

  /** Reading hands out nothing that had not arrived. */
  lemma {:induction false} ReadGot(sh: Shape, w: RecvWnd, msgs: seq<seq<Byte>>, rb: nat, max: nat, n: nat, q: nat, seg: nat)
    requires Inv(sh, w, msgs, rb) && q < |msgs| && seg < SegCount(|msgs[q]|, sh.segLen)
    requires Got(ReadMessages(sh, w, max, n).0, rb, q, seg)
    ensures Got(w, rb, q, seg)
    decreases n
  {
    hide Mul, Quo, Marks, Has, Inv, Valid, Rem, NextMessage, Got;
    OfsBelow(sh, w, msgs, rb);
    CopySlot(sh, w, msgs, rb);
    var s := w.slots[CopyPlace(sh, w)];
    if max > 0 && n > 0 && Readable(s) {
      var c := Min(max, s.len - w.copyOfs);
      if w.copyOfs + c < s.len {
        GotOfs(w, rb, w.copyOfs + c);
      } else {
        NextMessageKeeps(sh, w, msgs, rb);
        ReadGot(sh, NextMessage(sh, w), msgs, rb, max - c, n - 1, q, seg);
        NextMessageGot(sh, w, msgs, rb, q, seg);
      }
    }
  }

  // ---- Reading is maximal ----

  /** The bytes of the run of complete messages from place j on. */
  function RunBytes(sh: Shape, w: RecvWnd, j: nat): seq<Byte>
    requires Valid(sh, w) && j <= w.size
    decreases w.size - j
  {
    if j < w.size && Readable(w.slots[j]) then
      SlotFits(sh, w.slots[j]);
      w.slots[j].data[..w.slots[j].len] + RunBytes(sh, w, j + 1)
    else []
  }

  lemma {:induction false} RunSame(sh: Shape, w: RecvWnd, w': RecvWnd, j: nat)
    requires Valid(sh, w) && Valid(sh, w') && w.size == w'.size && j <= w.size
    requires forall i :: j <= i < w.size ==> w.slots[i] == w'.slots[i]
    ensures RunBytes(sh, w, j) == RunBytes(sh, w', j)
    decreases w.size - j
  {
    hide Mul, Marks, Has, Rem;
    if j < w.size { RunSame(sh, w, w', j + 1); }
  }

  /** The bytes a reader could get now. */
  function Available(sh: Shape, w: RecvWnd): seq<Byte>
    requires Valid(sh, w) && w.slide <= w.size && w.copyOfs <= |RunBytes(sh, w, w.slide)|
  {
    RunBytes(sh, w, w.slide)[w.copyOfs..]
  }

  lemma {:induction false} AvailableOk(sh: Shape, w: RecvWnd, msgs: seq<seq<Byte>>, rb: nat)
    requires Inv(sh, w, msgs, rb)
    ensures w.copyOfs <= |RunBytes(sh, w, w.slide)|
  {
    hide Mul, Marks, Has, Rem, Holds;
    if w.copyOfs > 0 { SlotFits(sh, w.slots[w.slide]); }
  }

  lemma {:induction false} AvailableNext(sh: Shape, w: RecvWnd, msgs: seq<seq<Byte>>, rb: nat)
    requires Inv(sh, w, msgs, rb) && w.slide < w.size && Readable(w.slots[w.slide])
    ensures Inv(sh, NextMessage(sh, w), msgs, rb)
    ensures w.copyOfs <= w.slots[w.slide].len <= |w.slots[w.slide].data|
    ensures w.copyOfs <= |RunBytes(sh, w, w.slide)|
    ensures NextMessage(sh, w).slide <= NextMessage(sh, w).size && NextMessage(sh, w).copyOfs == 0
    ensures Valid(sh, NextMessage(sh, w))
    ensures Available(sh, w) == w.slots[w.slide].data[w.copyOfs .. w.slots[w.slide].len] + Available(sh, NextMessage(sh, w))
  {
    hide Mul, Marks, Has, Rem, Holds, SlotHolds;
    NextMessageKeeps(sh, w, msgs, rb);
    CopySlot(sh, w, msgs, rb);
    SlotFits(sh, w.slots[w.slide]);
    RunSame(sh, w, NextMessage(sh, w), w.slide + 1);
  }

  /** A read returns exactly as many bytes as it was asked for, or all there are. */
  lemma {:induction false} ReadIsMaximal(sh: Shape, w: RecvWnd, msgs: seq<seq<Byte>>, rb: nat, max: nat, n: nat)
    requires Inv(sh, w, msgs, rb) && n >= w.size - w.slide
    ensures w.copyOfs <= |RunBytes(sh, w, w.slide)|
    ensures ReadMessages(sh, w, max, n).1 == Available(sh, w)[..Min(max, |Available(sh, w)|)]
    decreases n
  {
    hide Mul, Marks, Has, Rem, Inv, Valid, RunBytes, Available, NextMessage, ReadMessages;
    OfsBelow(sh, w, msgs, rb);
    AvailableOk(sh, w, msgs, rb);
    CopySlot(sh, w, msgs, rb);
    ReadTurn(sh, w, max, n);
    var s := w.slots[CopyPlace(sh, w)];
    if max > 0 && n > 0 && Readable(s) {
      AvailableNext(sh, w, msgs, rb);
      var c := Min(max, s.len - w.copyOfs);
      var next := NextMessage(sh, w);
      var x := s.data[w.copyOfs .. s.len];
      TakeJoin(x, Available(sh, next), max);
      if w.copyOfs + c >= s.len {
        NextMessageKeeps(sh, w, msgs, rb);
        ReadIsMaximal(sh, next, msgs, rb, max - c, n - 1);
      } else {
        assert x[..max] == s.data[w.copyOfs .. w.copyOfs + c];
      }
    } else if max > 0 {
      NoneAvailable(sh, w);
    }
  }

  /** A prefix of two strings joined. */
  lemma {:induction false} TakeJoin(x: seq<Byte>, y: seq<Byte>, max: nat)
    ensures (x + y)[..Min(max, |x + y|)] == if max < |x| then x[..max] else x + y[..Min(max - |x|, |y|)]
  {
  }

  lemma {:induction false} NoneAvailable(sh: Shape, w: RecvWnd)
    requires Valid(sh, w) && w.slide <= w.size && w.copyOfs <= |RunBytes(sh, w, w.slide)|
    requires w.slide < w.size ==> !Readable(w.slots[w.slide])
    ensures Available(sh, w) == []
  {
  }

  // ---- Reading splits ----

  /** More turns than there are messages make no difference. */
  lemma {:induction false} EnoughTurns(sh: Shape, w: RecvWnd, msgs: seq<seq<Byte>>, rb: nat, max: nat, n: nat)
    requires Inv(sh, w, msgs, rb) && n >= w.size - w.slide
    ensures ReadMessages(sh, w, max, n) == ReadMessages(sh, w, max, w.size - w.slide)
    decreases n
  {
    hide Mul, Marks, Has, Rem, Holds, SlotHolds;
    CopySlot(sh, w, msgs, rb);
    if max > 0 && n > 0 && Readable(w.slots[CopyPlace(sh, w)]) {
      NextMessageKeeps(sh, w, msgs, rb);
      EnoughTurns(sh, NextMessage(sh, w), msgs, rb, max - Min(max, w.slots[w.slide].len - w.copyOfs), n - 1);
    }
  }

  /** Reading a bytes and then b bytes is reading a + b bytes: same bytes, same window. */
  lemma {:induction false} ReadSplits(sh: Shape, w: RecvWnd, msgs: seq<seq<Byte>>, rb: nat, a: nat, b: nat)
    requires Inv(sh, w, msgs, rb)
    ensures Valid(sh, Read(sh, w, a).0)
    ensures var (w1, x) := Read(sh, w, a); var (w2, y) := Read(sh, w1, b);
      Read(sh, w, a + b) == (w2, x + y)
  {
    hide ReadMessages, Inv, Valid, Rem, Mul, Marks, Got, Delivered;
    OfsBelow(sh, w, msgs, rb);
    var n := w.size - w.slide;
    EnoughTurns(sh, w, msgs, rb, a, w.size);
    EnoughTurns(sh, w, msgs, rb, a + b, w.size);
    ReadContinues(sh, w, msgs, rb, a, n);
    var w1 := ReadMessages(sh, w, a, n).0;
    OfsBelow(sh, w1, msgs, rb);
    EnoughTurns(sh, w1, msgs, rb, b, w1.size);
    SplitTurns(sh, w, msgs, rb, a, b);
  }

  /** A read that ends inside the current message. */
  lemma {:induction false} ReadInside(sh: Shape, w: RecvWnd, msgs: seq<seq<Byte>>, rb: nat, max: nat)
    requires Inv(sh, w, msgs, rb) && w.slide < w.size && Readable(w.slots[w.slide])
    requires w.copyOfs + max < w.slots[w.slide].len
    ensures Inv(sh, w.(copyOfs := w.copyOfs + max), msgs, rb) && w.copyOfs + max <= |w.slots[w.slide].data|
    ensures ReadMessages(sh, w, max, w.size - w.slide)
      == (w.(copyOfs := w.copyOfs + max), w.slots[w.slide].data[w.copyOfs .. w.copyOfs + max])
  {
    hide Mul, Marks, Has, Rem, Holds, SlotHolds;
    CopySlot(sh, w, msgs, rb);
    SlotFits(sh, w.slots[w.slide]);
    OfsKeeps(sh, w, msgs, rb, w.copyOfs + max);
    if max == 0 {
      assert w.(copyOfs := w.copyOfs + max) == w;
      assert w.slots[w.slide].data[w.copyOfs .. w.copyOfs + max] == [];
    }
  }

  /** A read that uses up the current message. */
  lemma {:induction false} ReadAcross(sh: Shape, w: RecvWnd, msgs: seq<seq<Byte>>, rb: nat, max: nat)
    requires Inv(sh, w, msgs, rb) && w.slide < w.size && Readable(w.slots[w.slide])
    requires w.copyOfs < w.slots[w.slide].len <= w.copyOfs + max
    ensures var s, next := w.slots[w.slide], NextMessage(sh, w);
      && s.len <= |s.data| && Inv(sh, next, msgs, rb)
      && var rest := ReadMessages(sh, next, max - (s.len - w.copyOfs), next.size - next.slide);
      ReadMessages(sh, w, max, w.size - w.slide) == (rest.0, s.data[w.copyOfs .. s.len] + rest.1)
  {
    hide Mul, Marks, Has, Rem, Holds, SlotHolds;
    CopySlot(sh, w, msgs, rb);
    SlotFits(sh, w.slots[w.slide]);
    NextMessageKeeps(sh, w, msgs, rb);
  }

  lemma {:induction false} SplitTurns(sh: Shape, w: RecvWnd, msgs: seq<seq<Byte>>, rb: nat, a: nat, b: nat)
    requires Inv(sh, w, msgs, rb)
    ensures var (w1, x) := ReadMessages(sh, w, a, w.size - w.slide);
      && Inv(sh, w1, msgs, rb)
      && var (w2, y) := ReadMessages(sh, w1, b, w1.size - w1.slide);
      ReadMessages(sh, w, a + b, w.size - w.slide) == (w2, x + y)
    decreases w.size - w.slide
  {
    hide ReadMessages, Inv, Valid, Rem, Mul, Marks, NextMessage;
    OfsBelow(sh, w, msgs, rb);
    if a == 0 || w.slide == w.size || !Readable(w.slots[w.slide]) {
      SplitNothing(sh, w, msgs, rb, a, b);
    } else if w.copyOfs + a < w.slots[w.slide].len {
      SplitInside(sh, w, msgs, rb, a, b);
    } else {
      SplitAcross(sh, w, msgs, rb, a, b);
      SplitTurns(sh, NextMessage(sh, w), msgs, rb, a - (w.slots[w.slide].len - w.copyOfs), b);
    }
  }

  lemma {:induction false} OfsBelow(sh: Shape, w: RecvWnd, msgs: seq<seq<Byte>>, rb: nat)
    requires Inv(sh, w, msgs, rb)
    ensures Valid(sh, w) && sh.Valid() && w.slide <= w.size <= |w.slots| == sh.cap
    ensures w.slide < w.size && Readable(w.slots[w.slide]) ==>
      w.copyOfs < w.slots[w.slide].len <= |w.slots[w.slide].data|
  {
    hide Rem, Mul, Marks, Has, SlotHolds;
    if w.slide < w.size { SlotFits(sh, w.slots[w.slide]); }
  }

  /** The first read uses up a message, so that both readings go on from the next one. */
  lemma {:induction false} SplitAcross(sh: Shape, w: RecvWnd, msgs: seq<seq<Byte>>, rb: nat, a: nat, b: nat)
    requires Inv(sh, w, msgs, rb) && w.slide < w.size && Readable(w.slots[w.slide])
    requires w.copyOfs < w.slots[w.slide].len <= w.copyOfs + a
    ensures var next, a' := NextMessage(sh, w), a - (w.slots[w.slide].len - w.copyOfs);
      && Inv(sh, next, msgs, rb) && next.size - next.slide == w.size - w.slide - 1 >= 0
      && var (w1, x) := ReadMessages(sh, next, a', next.size - next.slide);
      Inv(sh, w1, msgs, rb) && w1.slide <= w1.size &&
      var (w2, y) := ReadMessages(sh, w1, b, w1.size - w1.slide);
      ReadMessages(sh, next, a' + b, next.size - next.slide) == (w2, x + y) ==>
        var (v1, x') := ReadMessages(sh, w, a, w.size - w.slide);
        v1 == w1 && ReadMessages(sh, w, a + b, w.size - w.slide) == (w2, x' + y)
  {
    hide ReadMessages, Inv, Valid, Rem, Mul, Marks;
    OfsBelow(sh, w, msgs, rb);
    ReadAcross(sh, w, msgs, rb, a);
    ReadAcross(sh, w, msgs, rb, a + b);
    var s, next, a' := w.slots[w.slide], NextMessage(sh, w), a - (w.slots[w.slide].len - w.copyOfs);
    ReadContinues(sh, next, msgs, rb, a', next.size - next.slide);
    OfsBelow(sh, next, msgs, rb);
    var (w1, x) := ReadMessages(sh, next, a', next.size - next.slide);
    OfsBelow(sh, w1, msgs, rb);
    assert a + b - (s.len - w.copyOfs) == a' + b;
    var (w2, y) := ReadMessages(sh, w1, b, w1.size - w1.slide);
    Assoc(s.data[w.copyOfs .. s.len], x, y);
  }

  lemma {:induction false} SplitNothing(sh: Shape, w: RecvWnd, msgs: seq<seq<Byte>>, rb: nat, a: nat, b: nat)
    requires Inv(sh, w, msgs, rb) && (a == 0 || w.slide == w.size || !Readable(w.slots[w.slide]))
    ensures ReadMessages(sh, w, a, w.size - w.slide) == (w, [])
    ensures var (w2, y) := ReadMessages(sh, w, b, w.size - w.slide); ReadMessages(sh, w, a + b, w.size - w.slide) == (w2, [] + y)
  {
    hide Mul, Marks, Has, Rem, SlotHolds;
    CopySlot(sh, w, msgs, rb);
    var (w2, y) := ReadMessages(sh, w, b, w.size - w.slide);
    assert [] + y == y;
  }

  lemma {:induction false} SliceJoin(d: seq<Byte>, i: nat, j: nat, k: nat)
    requires i <= j <= k <= |d|
    ensures d[i..k] == d[i..j] + d[j..k]
  {
  }

  lemma {:induction false} Assoc(x: seq<Byte>, y: seq<Byte>, z: seq<Byte>)
    ensures (x + y) + z == x + (y + z)
  {
  }

  /** The first read stops inside a message. */
  lemma {:induction false} SplitInside(sh: Shape, w: RecvWnd, msgs: seq<seq<Byte>>, rb: nat, a: nat, b: nat)
    requires Inv(sh, w, msgs, rb) && w.slide < w.size && Readable(w.slots[w.slide])
    requires 0 < a < w.slots[w.slide].len - w.copyOfs
    ensures var (w1, x) := ReadMessages(sh, w, a, w.size - w.slide);
      && Inv(sh, w1, msgs, rb)
      && var (w2, y) := ReadMessages(sh, w1, b, w1.size - w1.slide);
      ReadMessages(sh, w, a + b, w.size - w.slide) == (w2, x + y)
  {
    hide ReadMessages, Inv, Valid, Rem, Mul, Marks;
    OfsBelow(sh, w, msgs, rb);
    var s, w1 := w.slots[w.slide], w.(copyOfs := w.copyOfs + a);
    ReadInside(sh, w, msgs, rb, a);
    OfsBelow(sh, w1, msgs, rb);
    if w.copyOfs + a + b < s.len {
      ReadInside(sh, w, msgs, rb, a + b);
      ReadInside(sh, w1, msgs, rb, b);
      SliceJoin(s.data, w.copyOfs, w.copyOfs + a, w.copyOfs + a + b);
    } else {
      ReadAcross(sh, w, msgs, rb, a + b);
      ReadAcross(sh, w1, msgs, rb, b);
      var next := NextMessage(sh, w);
      assert NextMessage(sh, w1) == next;
      OfsBelow(sh, next, msgs, rb);
      var left := a + b - (s.len - w.copyOfs);
      assert left == b - (s.len - w1.copyOfs);
      SliceJoin(s.data, w.copyOfs, w.copyOfs + a, s.len);
      var rest := ReadMessages(sh, next, left, next.size - next.slide);
      Assoc(s.data[w.copyOfs .. w.copyOfs + a], s.data[w.copyOfs + a .. s.len], rest.1);
    }
  }
}

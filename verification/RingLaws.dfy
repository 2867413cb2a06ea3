/** The RAM ring refines a bounded sliding window. */
module RingLaws {
  import opened Config
  import opened Cyclic
  import opened Format
  import opened RamRing

  /** Taking a message into a window of at most RING_SIZE - 1 bytes. On an overrun the newest bytes
      stay; the byte that hit the old read position carries the overrun mark. */
  function Slide(pending: seq<byte>, message: seq<byte>): (s: seq<byte>)
    requires |pending| < RING_SIZE
    ensures |s| < RING_SIZE
  {
    var all := pending + message;
    if |all| < RING_SIZE then all
    else (if |all| > RING_SIZE then all[RING_SIZE := OVERRUN_MARK] else all)[|all| - (RING_SIZE - 1)..]
  }

  /** For every read and write position and every length the writer can produce, the overrun test
      says whether the message reached the reader -- except for a 256-byte message that exactly
      fills 256 free cells, after which the full ring looks empty. */
  lemma OverrunTestExactIff(r: Ring, e: Emission)
    requires r.Valid() && !e.atTail && |e.bytes| <= MAX_MESSAGE
    ensures (OverrunTest(r, e) <==> |r.Pending()| + |e.bytes| >= RING_SIZE)
       <==> !(|e.bytes| == MAX_MESSAGE && |r.Pending()| == RING_SIZE - MAX_MESSAGE)
  {
  }

  /** A message leaves the ring usable exactly when it does not end with the write pointer on the
      tail, and no overrun leaves it on the last cell. */
  lemma UsableAfterMessageIff(r: Ring, e: Emission)
    requires r.Valid() && |e.bytes| <= MAX_MESSAGE
    ensures AfterMessage(r, e).Valid() <==>
            !e.atTail && !(OverrunTest(r, e) && WriteEnd(r.wr, e) == RING_SIZE - 1)
  {
  }

  /** An overrun leaves a caret where the reader was, and the reader one cell behind the writer. */
  lemma OverrunMarksReader(r: Ring, e: Emission)
    requires r.Valid() && |e.bytes| <= MAX_MESSAGE && OverrunTest(r, e)
    ensures AfterMessage(r, e).cells[r.rd] == 94 && AfterMessage(r, e).rd == AfterMessage(r, e).wr + 1
  {
  }

  /** A reader that was put on the tail reads nothing, however long it waits. */
  lemma ReaderOnTailStalls(r: Ring, e: Emission)
    requires r.Valid() && |e.bytes| <= MAX_MESSAGE && !e.atTail
    requires OverrunTest(r, e) && WriteEnd(r.wr, e) == RING_SIZE - 1
    ensures AfterMessage(r, e).rd == RING_SIZE
    ensures ReadableLen(AfterMessage(r, e).rd, AfterMessage(r, e).wr) == 0
  {
  }

  /** The next message that puts anything out strikes the overrun test again: the mark goes one byte past
      the ring, and the reader comes back behind the message, or goes further out with the writer. */
  lemma ReaderOnTailMarksOutside(r: Ring, e: Emission)
    requires |r.cells| == RING_SIZE && r.rd == RING_SIZE && r.wr == RING_SIZE - 1
    requires 0 < |e.bytes| <= MAX_MESSAGE
    ensures OverrunTest(r, e) && Overrun(r, e).0 == |r.cells|
    ensures Overrun(r, e).1 == if e.atTail then RING_SIZE + 1 else |e.bytes|
  {
  }

  /** A writer on the tail drops every message, and the reader goes round and round: whatever it takes,
      there is more. */
  lemma WriterOnTailNeverEmpty(r: Ring, k: nat)
    requires r.rd < RING_SIZE && r.wr == RING_SIZE && k <= ReadableLen(r.rd, r.wr)
    ensures Advance(r, k).rd < RING_SIZE && Advance(r, k).wr == RING_SIZE
    ensures ReadableLen(Advance(r, k).rd, Advance(r, k).wr) > 0
  {
  }

  /** One message, with or without an overrun: the pending bytes slide. */
  lemma MessageSlides(r: Ring, e: Emission)
    requires r.Valid() && |e.bytes| <= MAX_MESSAGE
    requires AfterMessage(r, e).Valid()
    requires !(|e.bytes| == MAX_MESSAGE && |r.Pending()| == RING_SIZE - MAX_MESSAGE)
    ensures AfterMessage(r, e).Pending() == Slide(r.Pending(), e.bytes)
  {
    UsableAfterMessageIff(r, e);
    OverrunTestExactIff(r, e);
    var used := Off(r.rd, r.wr);
    var all := r.Pending() + e.bytes;
    if OverrunTest(r, e) {
      SlideOverrun(r, e);
    } else {
      WindowAfterWrite(r.cells, r.rd, used, e.bytes, 0);
      assert all[0..] == all;
    }
  }

  lemma SlideOverrun(r: Ring, e: Emission)
    requires r.Valid() && |e.bytes| <= MAX_MESSAGE && !e.atTail
    requires AfterMessage(r, e).Valid() && OverrunTest(r, e)
    requires |r.Pending()| + |e.bytes| >= RING_SIZE
    ensures AfterMessage(r, e).Pending() == Slide(r.Pending(), e.bytes)
  {
    var used := Off(r.rd, r.wr);
    var all := r.Pending() + e.bytes;
    var drop := |all| - (RING_SIZE - 1);
    var written := WriteAt(r.cells, r.wr, e.bytes);
    var next := AfterMessage(r, e);
    assert next.rd == At(r.rd, drop) && Off(next.rd, next.wr) == RING_SIZE - 1;
    WindowAfterWrite(r.cells, r.rd, used, e.bytes, drop);
    assert Window(written, next.rd, RING_SIZE - 1) == all[drop..];
    forall i | 0 <= i < RING_SIZE - 1
      ensures next.Pending()[i] == Slide(r.Pending(), e.bytes)[i]
    {
      assert Window(written, next.rd, RING_SIZE - 1)[i] == written[At(next.rd, i)];
      assert next.Pending()[i] == next.cells[At(next.rd, i)];
      assert At(next.rd, i) == r.rd <==> drop + i == RING_SIZE;
    }
  }

  /** Advancing the reader by what was sent, with the wrap at the tail. */
  function Advance(r: Ring, k: nat): Ring {
    r.(rd := OntoRing(r.rd + k))
  }

  /** The reader takes the oldest bytes, in order, and leaves the rest. */
  lemma AdvanceDropsFront(r: Ring, k: nat)
    requires r.Valid() && k <= ReadableLen(r.rd, r.wr)
    ensures ReadableLen(r.rd, r.wr) <= |r.Pending()| && r.rd + k <= RING_SIZE
    ensures r.cells[r.rd..r.rd + k] == r.Pending()[..k]
    ensures Advance(r, k).Valid() && Advance(r, k).Pending() == r.Pending()[k..]
  {
  }

  /** The writer's refinement at the level of the ring: when no piece is disturbed by the tail, the
      pending bytes slide by the rendering itself. */
  lemma RenderedMessageSlides(r: Ring, ps: seq<Piece>)
    requires r.Valid() && |Render(ps)| < MAX_MESSAGE && Undisturbed(Room(r.wr), 0, ps)
    ensures Emit(Room(r.wr), 0, ps) == Emission(Render(ps), false)
    ensures var next := AfterMessage(r, Emit(Room(r.wr), 0, ps));
            next.Valid() ==> next.Pending() == Slide(r.Pending(), Render(ps))
  {
    EmitRefinesRender(Room(r.wr), 0, ps);
    if AfterMessage(r, Emit(Room(r.wr), 0, ps)).Valid() {
      MessageSlides(r, Emit(Room(r.wr), 0, ps));
    }
  }
}

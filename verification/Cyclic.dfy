/** Positions, windows and writes in a cyclic buffer of RING_SIZE cells. */
module Cyclic {
  import opened Config

  /** The cell `i` steps after `start`. */
  function At(start: nat, i: nat): (p: nat)
    requires start < RING_SIZE && i <= RING_SIZE
    ensures p < RING_SIZE
  {
    if start + i < RING_SIZE then start + i else start + i - RING_SIZE
  }

  /** How many steps after `start` cell `p` lies; the inverse of `At`. */
  function Off(start: nat, p: nat): (i: nat)
    requires start < RING_SIZE && p < RING_SIZE
    ensures i < RING_SIZE && At(start, i) == p
  {
    if p >= start then p - start else p + RING_SIZE - start
  }

  /** The `len` cells from `start` on, in reading order. */
  function Window(cells: seq<byte>, start: nat, len: nat): (s: seq<byte>)
    requires |cells| == RING_SIZE && start < RING_SIZE && len <= RING_SIZE
    ensures |s| == len
  {
    seq(len, i requires 0 <= i < len => cells[At(start, i)])
  }

  /** `cells` after the bytes of `text` were stored one after the other from `start` on. */
  function WriteAt(cells: seq<byte>, start: nat, text: seq<byte>): (s: seq<byte>)
    requires |cells| == RING_SIZE && start < RING_SIZE && |text| <= RING_SIZE
    ensures |s| == RING_SIZE
  {
    seq(RING_SIZE, j requires 0 <= j < RING_SIZE =>
      if Off(start, j) < |text| then text[Off(start, j)] else cells[j])
  }

  lemma WriteNothing(cells: seq<byte>, start: nat)
    requires |cells| == RING_SIZE && start < RING_SIZE
    ensures WriteAt(cells, start, []) == cells
  {
  }

  /** Storing one more byte. */
  lemma WriteOneMore(cells: seq<byte>, start: nat, text: seq<byte>, b: byte)
    requires |cells| == RING_SIZE && start < RING_SIZE && |text| < RING_SIZE
    ensures WriteAt(cells, start, text)[At(start, |text|) := b] == WriteAt(cells, start, text + [b])
  {
  }

  /** Two writes in a row are one write of the concatenation. */
  lemma WriteTwice(cells: seq<byte>, start: nat, a: seq<byte>, b: seq<byte>)
    requires |cells| == RING_SIZE && start < RING_SIZE && |a| + |b| <= RING_SIZE
    ensures WriteAt(WriteAt(cells, start, a), At(start, |a|), b) == WriteAt(cells, start, a + b)
  {
  }

  /** Writing behind a window of `used` cells appends to it and drops the `k` oldest bytes
      when the reader has moved on by `k`. */
  lemma WindowAfterWrite(cells: seq<byte>, start: nat, used: nat, text: seq<byte>, k: nat)
    requires |cells| == RING_SIZE && start < RING_SIZE && used <= RING_SIZE && |text| <= RING_SIZE
    requires used + |text| - RING_SIZE <= k <= used + |text| && k <= RING_SIZE
    ensures Window(WriteAt(cells, At(start, used), text), At(start, k), used + |text| - k)
         == (Window(cells, start, used) + text)[k..]
  {
  }
}

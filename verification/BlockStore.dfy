/** The block store behind the worker's IndexedDB files: 4096-byte blocks, the writer that turns byte
    writes into whole blocks, and the four changes a file can undergo. */
module BlockStore {
  import opened Wrappers

  type Byte = b: int | 0 <= b < 256

  datatype Write = Write(offset: nat, bytes: seq<Byte>) {
    predicate Covers(p: nat) { offset <= p < offset + |bytes| }
  }

  predicate Covered(ws: seq<Write>, p: nat) {
    exists j :: 0 <= j < |ws| && ws[j].Covers(p)
  }

  /** Byte p after laying the writes over the original contents; bytes beyond both are zero. */
  function LayerByte(base: seq<Byte>, ws: seq<Write>, p: nat): Byte {
    if ws == [] then
      if p < |base| then base[p] else 0
    else
      var w := ws[|ws| - 1];
      if w.Covers(p) then w.bytes[p - w.offset] else LayerByte(base, ws[..|ws| - 1], p)
  }

  lemma LastWriteWins(base: seq<Byte>, ws: seq<Write>, w: Write, p: nat)
    ensures LayerByte(base, ws + [w], p) == if w.Covers(p) then w.bytes[p - w.offset] else LayerByte(base, ws, p)
    ensures Covered(ws + [w], p) <==> Covered(ws, p) || w.Covers(p)
  {
    var all := ws + [w];
    assert all[..|ws|] == ws;
    if Covered(ws, p) {
      var j :| 0 <= j < |ws| && ws[j].Covers(p);
      assert all[j].Covers(p);
    }
    if w.Covers(p) { assert all[|ws|].Covers(p); }
  }

  /** Among all writes the last one that covers a byte decides it. */
  lemma {:induction false} LastCoveringWriteDecides(base: seq<Byte>, ws: seq<Write>, j: nat, p: nat)
    requires j < |ws| && ws[j].Covers(p) && forall i :: j < i < |ws| ==> !ws[i].Covers(p)
    ensures LayerByte(base, ws, p) == ws[j].bytes[p - ws[j].offset]
  {
    if j < |ws| - 1 {
      LastCoveringWriteDecides(base, ws[..|ws| - 1], j, p);
    }
  }

  /** Uncovered bytes come from the original contents. */
  lemma {:induction false} UncoveredByte(base: seq<Byte>, ws: seq<Write>, p: nat)
    requires !Covered(ws, p)
    ensures LayerByte(base, ws, p) == if p < |base| then base[p] else 0
  {
    if ws != [] {
      var rest := ws[..|ws| - 1];
      assert ws == rest + [ws[|ws| - 1]];
      LastWriteWins(base, rest, ws[|ws| - 1], p);
      UncoveredByte(base, rest, p);
    }
  }

  /** Covered bytes do not depend on the original contents. */
  lemma {:induction false} CoveredByte(base: seq<Byte>, other: seq<Byte>, ws: seq<Write>, p: nat)
    requires Covered(ws, p)
    ensures LayerByte(base, ws, p) == LayerByte(other, ws, p)
  {
    var rest := ws[..|ws| - 1];
    assert ws == rest + [ws[|ws| - 1]];
    LastWriteWins(base, rest, ws[|ws| - 1], p);
    LastWriteWins(other, rest, ws[|ws| - 1], p);
    if !ws[|ws| - 1].Covers(p) { CoveredByte(base, other, rest, p); }
  }

  function Max(a: nat, b: nat): nat { if a < b then b else a }

  function NewLength(length: nat, ws: seq<Write>): nat {
    if ws == [] then length
    else Max(NewLength(length, ws[..|ws| - 1]), ws[|ws| - 1].offset + |ws[|ws| - 1].bytes|)
  }

  lemma NewLengthSnoc(length: nat, ws: seq<Write>, w: Write)
    ensures NewLength(length, ws + [w]) == Max(NewLength(length, ws), w.offset + |w.bytes|)
  {
    assert (ws + [w])[..|ws|] == ws;
  }

  lemma {:induction false} NewLengthGrows(length: nat, ws: seq<Write>)
    ensures NewLength(length, ws) >= length
    ensures forall p: nat :: Covered(ws, p) ==> p < NewLength(length, ws)
  {
    if ws != [] {
      var rest, w := ws[..|ws| - 1], ws[|ws| - 1];
      NewLengthGrows(length, rest);
      assert ws == rest + [w];
      forall p: nat | Covered(ws, p) ensures p < NewLength(length, ws) {
        LastWriteWins([], rest, w, p);
      }
    }
  }

  function BlockOf(p: nat): nat { p / 4096 * 4096 }

  /** How many of n bytes fit into the block when starting at offset o. */
  function PieceLength(o: nat, n: nat): (m: nat)
    requires o < 4096 && n > 0
    ensures 0 < m <= n && o + m <= 4096
  {
    if o != 0 then (if 4096 - o < n then 4096 - o else n)
    else if 4096 < n then 4096 else n
  }

  lemma SplitPosition(p: nat)
    ensures BlockOf(p) + p % 4096 == p && p % 4096 < 4096 && BlockOf(p) % 4096 == 0
  {}

  lemma BlockBounds(p: nat)
    ensures BlockOf(p) <= p < BlockOf(p) + 4096
    ensures BlockOf(p) % 4096 == 0
    ensures forall b: nat :: b % 4096 == 0 && b <= p < b + 4096 ==> b == BlockOf(p)
  {}

  ghost predicate BlocksHold(base: seq<Byte>, ws: seq<Write>, blocks: map<nat, seq<Byte>>) {
    forall b :: b in blocks ==>
      b % 4096 == 0 && |blocks[b]| == 4096 && forall i :: 0 <= i < 4096 ==> blocks[b][i] == LayerByte(base, ws, b + i)
  }

  /** The blocks that a list of writes touches, with their new contents. */
  ghost predicate BlocksFor(base: seq<Byte>, ws: seq<Write>, blocks: map<nat, seq<Byte>>) {
    && BlocksHold(base, ws, blocks)
    && (forall p: nat :: Covered(ws, p) ==> BlockOf(p) in blocks)
    && (forall b :: b in blocks ==> exists p: nat :: BlockOf(p) == b && Covered(ws, p))
  }

  /** Collects byte writes into whole blocks, reading untouched bytes from the original contents. */
  class BlockWriter {
    const original: seq<Byte>
    var replaced: map<nat, seq<Byte>>
    var newLength: nat
    ghost var applied: seq<Write>

    ghost predicate Valid()
      reads this
    {
      BlocksFor(original, applied, replaced) && newLength == NewLength(|original|, applied)
    }

    constructor (original: seq<Byte>)
      ensures Valid() && applied == [] && this.original == original
    {
      this.original := original;
      replaced, newLength, applied := map[], |original|, [];
    }

    lemma WriterValid()
      ensures Valid() <==> BlocksFor(original, applied, replaced) && newLength == NewLength(|original|, applied)
    {}

    /** The block at position b, taken from the original contents the first time it is needed. */
    function CurrentBlock(b: nat): (s: seq<Byte>)
      reads this
      requires b in replaced ==> |replaced[b]| == 4096
      ensures |s| == 4096
    {
      if b in replaced then replaced[b]
      else seq(4096, i requires 0 <= i < 4096 => if b + i < |original| then original[b + i] else 0)
    }

    /** Replaces data bytes at the given offset inside one block. */
    method Touch(b: nat, offset: nat, data: seq<Byte>)
      requires BlocksFor(original, applied, replaced) && b % 4096 == 0 && offset + |data| <= 4096
      modifies this`replaced
      ensures replaced.Keys == old(replaced.Keys) + {b}
      ensures forall k :: k in old(replaced) && k != b ==> replaced[k] == old(replaced)[k]
      ensures Patched(original, applied, b, offset, data, replaced[b])
    {
      hide LayerByte, Covered, BlockOf, Patched;
      var s := CurrentBlock(b);
      if b !in replaced { FreshBlock(original, applied, replaced, b, s); }
      replaced := replaced[b := s[..offset] + data + s[offset + |data|..]];
      PatchedBlock(original, applied, b, offset, data, s);
    }

    /** Lays one write over the file, block by block. */
    method AddWrite(w: Write)
      requires Valid()
      modifies this
      ensures Valid() && applied == old(applied) + [w]
    {
      WriterValid();
      hide *;
      var a, s, r := w.offset, |w.bytes|, 0;
      ghost var before := applied;
      EmptyWrite(original, before, replaced, a);
      applied := before + [Write(a, [])];
      while r < s
        invariant 0 <= r <= s
        invariant applied == before + [Write(a, w.bytes[..r])]
        invariant BlocksFor(original, applied, replaced)
        modifies this`replaced, this`applied
      {
        var q := a + r;
        var b, o := BlockOf(q), q % 4096;
        var l := r + PieceLength(o, s - r);
        ghost var was := replaced;
        SplitPosition(q);
        Touch(b, o, w.bytes[r..l]);
        PieceLaid(original, before, was, replaced, a, w.bytes, r, l);
        applied := before + [Write(a, w.bytes[..l])];
        r := l;
      }
      newLength := Max(newLength, a + s);
      assert w.bytes[..s] == w.bytes && w == Write(a, w.bytes);
      NewLengthSnoc(|original|, before, w);
      WriterValid();
    }
  }

  lemma EmptyWrite(base: seq<Byte>, ws: seq<Write>, blocks: map<nat, seq<Byte>>, a: nat)
    requires BlocksFor(base, ws, blocks)
    ensures BlocksFor(base, ws + [Write(a, [])], blocks)
  {
    forall p: nat
      ensures LayerByte(base, ws + [Write(a, [])], p) == LayerByte(base, ws, p)
      ensures Covered(ws + [Write(a, [])], p) <==> Covered(ws, p)
    {
      LastWriteWins(base, ws, Write(a, []), p);
    }
  }

  /** A longer prefix of a write differs from a shorter one on the bytes in between only. */
  lemma LongerPrefix(base: seq<Byte>, ws: seq<Write>, a: nat, bytes: seq<Byte>, r: nat, l: nat, p: nat)
    requires r <= l <= |bytes|
    ensures LayerByte(base, ws + [Write(a, bytes[..l])], p) ==
              if a + r <= p < a + l then bytes[p - a] else LayerByte(base, ws + [Write(a, bytes[..r])], p)
    ensures Covered(ws + [Write(a, bytes[..l])], p) <==> Covered(ws + [Write(a, bytes[..r])], p) || a + r <= p < a + l
  {
    LastWriteWins(base, ws, Write(a, bytes[..l]), p);
    LastWriteWins(base, ws, Write(a, bytes[..r]), p);
  }

  /** Contents of block b after `data` was put at offset o. */
  ghost predicate Patched(base: seq<Byte>, ws: seq<Write>, b: nat, o: nat, data: seq<Byte>, s: seq<Byte>) {
    && |s| == 4096
    && forall i :: 0 <= i < 4096 ==>
         s[i] == (if o <= i < o + |data| then data[i - o] else LayerByte(base, ws, b + i))
  }

  lemma FreshBlock(base: seq<Byte>, ws: seq<Write>, blocks: map<nat, seq<Byte>>, b: nat, s: seq<Byte>)
    requires BlocksFor(base, ws, blocks) && b % 4096 == 0 && b !in blocks && |s| == 4096
    requires forall i: nat :: i < 4096 ==> s[i] == if b + i < |base| then base[b + i] else 0
    ensures forall i: nat :: i < 4096 ==> s[i] == LayerByte(base, ws, b + i)
  {
    hide LayerByte, Covered, BlockOf;
    forall i: nat | i < 4096 ensures s[i] == LayerByte(base, ws, b + i) {
      BlockBounds(b + i);
      UncoveredByte(base, ws, b + i);
    }
  }

  lemma PatchedBlock(base: seq<Byte>, ws: seq<Write>, b: nat, o: nat, data: seq<Byte>, s: seq<Byte>)
    requires |s| == 4096 && o + |data| <= 4096
    requires forall i: nat :: i < 4096 ==> s[i] == LayerByte(base, ws, b + i)
    ensures Patched(base, ws, b, o, data, s[..o] + data + s[o + |data|..])
  {
    hide LayerByte;
  }

  lemma OtherBlock(k: nat, i: nat, q: nat, end: nat)
    requires k % 4096 == 0 && k != BlockOf(q) && i < 4096 && end <= BlockOf(q) + 4096
    ensures !(q <= k + i < end)
  {
    BlockBounds(k + i);
    BlockBounds(q);
  }

  /** Touching one block with the next piece of a write keeps blocks and writes in step. */
  lemma PieceLaid(base: seq<Byte>, ws: seq<Write>, was: map<nat, seq<Byte>>, now: map<nat, seq<Byte>>,
                  a: nat, bytes: seq<Byte>, r: nat, l: nat)
    requires r < l <= |bytes| && a + l <= BlockOf(a + r) + 4096
    requires BlocksFor(base, ws + [Write(a, bytes[..r])], was)
    requires now.Keys == was.Keys + {BlockOf(a + r)}
    requires forall k :: k in was && k != BlockOf(a + r) ==> now[k] == was[k]
    requires BlockOf(a + r) <= a + r
    requires Patched(base, ws + [Write(a, bytes[..r])], BlockOf(a + r), a + r - BlockOf(a + r), bytes[r..l],
      now[BlockOf(a + r)])
    ensures BlocksFor(base, ws + [Write(a, bytes[..l])], now)
  {
    PieceHeld(base, ws, was, now, a, bytes, r, l);
    hide LayerByte, Covered, BlockOf, BlocksHold;
    var shorter, longer, b := ws + [Write(a, bytes[..r])], ws + [Write(a, bytes[..l])], BlockOf(a + r);
    BlockBounds(a + r);
    forall p: nat | Covered(longer, p) ensures BlockOf(p) in now {
      LongerPrefix(base, ws, a, bytes, r, l, p);
      BlockBounds(p);
    }
    forall k | k in now ensures exists p: nat :: BlockOf(p) == k && Covered(longer, p) {
      if k == b {
        LongerPrefix(base, ws, a, bytes, r, l, a + r);
      } else {
        var p: nat :| BlockOf(p) == k && Covered(shorter, p);
        LongerPrefix(base, ws, a, bytes, r, l, p);
      }
    }
  }

  lemma PieceHeld(base: seq<Byte>, ws: seq<Write>, was: map<nat, seq<Byte>>, now: map<nat, seq<Byte>>,
                  a: nat, bytes: seq<Byte>, r: nat, l: nat)
    requires r < l <= |bytes| && a + l <= BlockOf(a + r) + 4096
    requires BlocksHold(base, ws + [Write(a, bytes[..r])], was)
    requires now.Keys == was.Keys + {BlockOf(a + r)}
    requires forall k :: k in was && k != BlockOf(a + r) ==> now[k] == was[k]
    requires BlockOf(a + r) <= a + r
    requires Patched(base, ws + [Write(a, bytes[..r])], BlockOf(a + r), a + r - BlockOf(a + r), bytes[r..l],
      now[BlockOf(a + r)])
    ensures BlocksHold(base, ws + [Write(a, bytes[..l])], now)
  {
    hide LayerByte, Covered, BlockOf;
    var longer, b := ws + [Write(a, bytes[..l])], BlockOf(a + r);
    BlockBounds(a + r);
    forall k | k in now
      ensures k % 4096 == 0 && |now[k]| == 4096 && forall i :: 0 <= i < 4096 ==>
        now[k][i] == LayerByte(base, longer, k + i)
    {
      forall i | 0 <= i < 4096 ensures now[k][i] == LayerByte(base, longer, k + i) {
        LongerPrefix(base, ws, a, bytes, r, l, k + i);
        if k != b { OtherBlock(k, i, a + r, a + l); }
      }
    }
  }
}

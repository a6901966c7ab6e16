/** What a queue of pending changes does to one stored file, and the invariant that ties the stored
    file and its queue to the contents the program sees. Everything here concerns a single name. */
module WriteBehind {
  import opened Wrappers
  import opened BlockStore

  /** A file as stored: its length and the blocks that exist. */
  datatype RawFile = RawFile(length: nat, blocks: map<nat, seq<Byte>>) {
    ghost predicate Valid() {
      forall b :: b in blocks ==> b % 4096 == 0 && b <= length && |blocks[b]| == 4096
    }
  }

  function RawByte(raw: RawFile, p: nat): Byte {
    if BlockOf(p) in raw.blocks && p - BlockOf(p) < |raw.blocks[BlockOf(p)]|
    then raw.blocks[BlockOf(p)][p - BlockOf(p)] else 0
  }

  function FileBytes(raw: RawFile): (s: seq<Byte>)
    ensures |s| == raw.length
  {
    seq(raw.length, p requires 0 <= p => RawByte(raw, p))
  }

  /** A pending change: base is what the write's view of the file's buffer shows. */
  datatype Change =
    | Create
    | Delete
    | WriteFile(base: seq<Byte>, writes: seq<Write>)
    | Truncate(length: nat)

  /** The stored file after carrying out one change; changes that do not apply fail without effect. */
  ghost predicate CarriedOut(raw: Option<RawFile>, c: Change, after: Option<RawFile>) {
    match c
    case Create => after == if raw.None? then Some(RawFile(0, map[])) else raw
    case Delete => after == None
    case WriteFile(base, ws) =>
      if raw.None? then after == None
      else exists blocks: map<nat, seq<Byte>> :: BlocksFor(base, ws, blocks)
             && after == Some(RawFile(NewLength(|base|, ws), raw.value.blocks + blocks))
    case Truncate(n) =>
      after == if raw.None? then None else Some(TruncatedRaw(raw.value, n))
  }

  /** Truncation keeps the block that contains the new end, old bytes included. */
  function TruncatedRaw(raw: RawFile, n: nat): RawFile {
    RawFile(n, if raw.length > n then map b | b in raw.blocks && b <= BlockOf(n) :: raw.blocks[b] else raw.blocks)
  }

  /** Length after one change; None means the file does not exist. */
  function LengthStep(length: Option<nat>, c: Change): Option<nat> {
    match c
    case Create => if length.None? then Some(0) else length
    case Delete => None
    case WriteFile(base, ws) => if length.None? then None else Some(NewLength(|base|, ws))
    case Truncate(n) => if length.None? then None else Some(n)
  }

  function LengthAfter(length: Option<nat>, cs: seq<Change>): Option<nat> {
    if cs == [] then length else LengthStep(LengthAfter(length, cs[..|cs| - 1]), cs[|cs| - 1])
  }

  /** Every change applies to the length its predecessors leave: creations to a missing file, writes
      to the length of their view, truncations to at least the new length. */
  predicate Applies(length: Option<nat>, c: Change) {
    match c
    case Create => length.None?
    case Delete => true
    case WriteFile(base, ws) => length == Some(|base|)
    case Truncate(n) => length.Some? && n <= length.value
  }

  predicate AllApply(length: Option<nat>, cs: seq<Change>) {
    cs == [] || (AllApply(length, cs[..|cs| - 1]) && Applies(LengthAfter(length, cs[..|cs| - 1]), cs[|cs| - 1]))
  }

  lemma AppendedChange(length: Option<nat>, cs: seq<Change>, c: Change)
    ensures LengthAfter(length, cs + [c]) == LengthStep(LengthAfter(length, cs), c)
    ensures AllApply(length, cs + [c]) <==> AllApply(length, cs) && Applies(LengthAfter(length, cs), c)
  {
    assert (cs + [c])[..|cs|] == cs;
  }

  /** Carrying out the first change first gives the same lengths. */
  lemma {:induction false} FirstChange(length: Option<nat>, cs: seq<Change>)
    requires cs != []
    ensures LengthAfter(length, cs) == LengthAfter(LengthStep(length, cs[0]), cs[1..])
    ensures AllApply(length, cs) ==> Applies(length, cs[0]) && AllApply(LengthStep(length, cs[0]), cs[1..])
  {
    if |cs| > 1 {
      var rest, last := cs[..|cs| - 1], cs[|cs| - 1];
      FirstChange(length, rest);
      assert cs[1..] == rest[1..] + [last];
      AppendedChange(LengthStep(length, cs[0]), rest[1..], last);
    } else {
      assert cs == [] + [cs[0]];
      AppendedChange(length, [], cs[0]);
      assert cs[1..] == [];
    }
  }

  lemma {:induction false} PrefixApplies(length: Option<nat>, cs: seq<Change>, k: nat)
    requires AllApply(length, cs) && k <= |cs|
    ensures AllApply(length, cs[..k])
    ensures k < |cs| ==> Applies(LengthAfter(length, cs[..k]), cs[k])
    decreases |cs|
  {
    if k == |cs| {
      assert cs[..k] == cs;
    } else if k < |cs| - 1 {
      PrefixApplies(length, cs[..|cs| - 1], k);
      assert cs[..|cs| - 1][..k] == cs[..k];
    }
  }

  /** A pending write at or after position `from` covers byte p. */
  ghost predicate CoveredFrom(cs: seq<Change>, from: nat, p: nat) {
    exists k :: from <= k < |cs| && cs[k].WriteFile? && Covered(cs[k].writes, p)
  }

  predicate DeletedFrom(cs: seq<Change>, from: nat) {
    exists k :: from <= k < |cs| && cs[k].Delete?
  }

  /** The byte a change leaves at p, if it decides that byte. */
  function Decides(c: Change, p: nat): Option<Byte> {
    match c
    case Create => Some(0)
    case Delete => None
    case WriteFile(base, ws) => Some(LayerByte(base, ws, p))
    case Truncate(n) => if p < n then None else Some(0)
  }

  /** Whatever change k decides about a byte of the file is the byte the program sees, or is
      overwritten by a later pending write. A deletion makes everything before it irrelevant. */
  ghost predicate Settled(cs: seq<Change>, k: nat, m: seq<Byte>)
    requires k < |cs|
  {
    DeletedFrom(cs, k + 1) ||
    forall p :: 0 <= p < |m| && Decides(cs[k], p).Some? ==> Decides(cs[k], p).value == m[p] || CoveredFrom(cs, k + 1, p)
  }

  /** The same for the bytes stored already. */
  ghost predicate StoreSettled(raw: RawFile, cs: seq<Change>, m: seq<Byte>) {
    DeletedFrom(cs, 0) ||
    forall p :: 0 <= p < |m| ==> RawByte(raw, p) == m[p] || CoveredFrom(cs, 0, p)
  }

  function LengthOf(raw: Option<RawFile>): Option<nat> {
    if raw.None? then None else Some(raw.value.length)
  }

  /** Stored file, pending changes and visible contents (None: not visible, or temporary) agree. */
  ghost predicate InStep(raw: Option<RawFile>, cs: seq<Change>, mem: Option<seq<Byte>>) {
    && (raw.Some? ==> raw.value.Valid())
    && AllApply(LengthOf(raw), cs)
    && LengthAfter(LengthOf(raw), cs) == (if mem.None? then None else Some(|mem.value|))
    && (mem.Some? && raw.Some? ==> StoreSettled(raw.value, cs, mem.value))
    && (mem.Some? ==> forall k :: 0 <= k < |cs| ==> Settled(cs, k, mem.value))
  }

  /** Main result: once nothing is pending, what is stored is exactly what is visible. */
  lemma DrainedAgrees(raw: Option<RawFile>, mem: Option<seq<Byte>>)
    requires InStep(raw, [], mem)
    ensures raw.Some? <==> mem.Some?
    ensures raw.Some? ==> FileBytes(raw.value) == mem.value
  {}

  lemma TailFacts(cs: seq<Change>, k: nat, p: nat)
    requires cs != [] && k >= 1
    ensures CoveredFrom(cs[1..], k - 1, p) <==> CoveredFrom(cs, k, p)
    ensures DeletedFrom(cs[1..], k - 1) <==> DeletedFrom(cs, k)
  {
    var t := cs[1..];
    if CoveredFrom(cs, k, p) {
      var i :| k <= i < |cs| && cs[i].WriteFile? && Covered(cs[i].writes, p);
      assert t[i - 1].WriteFile? && Covered(t[i - 1].writes, p);
    }
    if CoveredFrom(t, k - 1, p) {
      var i :| k - 1 <= i < |t| && t[i].WriteFile? && Covered(t[i].writes, p);
      assert cs[i + 1].WriteFile? && Covered(cs[i + 1].writes, p);
    }
    if DeletedFrom(cs, k) {
      var i :| k <= i < |cs| && cs[i].Delete?;
      assert t[i - 1].Delete?;
    }
    if DeletedFrom(t, k - 1) {
      var i :| k - 1 <= i < |t| && t[i].Delete?;
      assert cs[i + 1].Delete?;
    }
  }

  lemma HeadCovers(cs: seq<Change>, p: nat)
    requires cs != []
    ensures CoveredFrom(cs, 0, p) <==> CoveredFrom(cs, 1, p) || (cs[0].WriteFile? && Covered(cs[0].writes, p))
    ensures DeletedFrom(cs, 0) <==> DeletedFrom(cs, 1) || cs[0].Delete?
  {}

  /** Settled is about later changes only, so the tail of the queue keeps it. */
  lemma TailSettled(cs: seq<Change>, m: seq<Byte>)
    requires cs != [] && forall k :: 0 <= k < |cs| ==> Settled(cs, k, m)
    ensures forall k :: 0 <= k < |cs| - 1 ==> Settled(cs[1..], k, m)
  {
    forall k | 0 <= k < |cs| - 1 ensures Settled(cs[1..], k, m) {
      assert Settled(cs, k + 1, m);
      var t, i, j := cs[1..], k + 1, k + 2;
      TailFacts(cs, j, 0);
      forall p: nat
        ensures CoveredFrom(t, i, p) <==> CoveredFrom(cs, j, p)
      {
        TailFacts(cs, j, p);
      }
      hide CoveredFrom;
      hide DeletedFrom;
    }
  }

  /** Bytes of the stored file after one change. */
  lemma BytesAfter(raw: RawFile, c: Change, after: RawFile, p: nat)
    requires raw.Valid() && CarriedOut(Some(raw), c, Some(after)) && !c.Create?
    ensures RawByte(after, p) == RawByte(raw, p)
         || (Decides(c, p).Some? && RawByte(after, p) == Decides(c, p).value)
    ensures c.WriteFile? && Covered(c.writes, p) ==> Decides(c, p).Some? && RawByte(after, p) == Decides(c, p).value
  {
    BlockBounds(p);
    match c
    case Truncate(n) => BlockBounds(n);
    case WriteFile(base, ws) =>
      var blocks: map<nat, seq<Byte>> :| BlocksFor(base, ws, blocks)
        && after == RawFile(NewLength(|base|, ws), raw.blocks + blocks);
      WrittenByte(raw, base, ws, blocks, after, p);
  }

  lemma WrittenByte(raw: RawFile, base: seq<Byte>, ws: seq<Write>, blocks: map<nat, seq<Byte>>, after: RawFile, p: nat)
    requires BlocksFor(base, ws, blocks) && after.blocks == raw.blocks + blocks
    ensures RawByte(after, p) == if BlockOf(p) in blocks then LayerByte(base, ws, p) else RawByte(raw, p)
    ensures Covered(ws, p) ==> BlockOf(p) in blocks
  {
    hide BlocksFor;
    hide LayerByte;
    hide BlockOf;
    BlockBounds(p);
    BlockEntry(base, ws, blocks, p);
  }

  lemma BlockEntry(base: seq<Byte>, ws: seq<Write>, blocks: map<nat, seq<Byte>>, p: nat)
    requires BlocksFor(base, ws, blocks) && BlockOf(p) <= p < BlockOf(p) + 4096
    ensures BlockOf(p) in blocks ==>
              |blocks[BlockOf(p)]| == 4096 && blocks[BlockOf(p)][p - BlockOf(p)] == LayerByte(base, ws, p)
    ensures Covered(ws, p) ==> BlockOf(p) in blocks
  {
    var b, i := BlockOf(p), p - BlockOf(p);
    hide BlockOf;
    hide LayerByte;
    assert b in blocks ==> |blocks[b]| == 4096 && blocks[b][i] == LayerByte(base, ws, b + i);
    assert b + i == p;
  }

  /** Every block of the stored file starts at or before its end, whatever is carried out. */
  lemma ValidAfter(raw: RawFile, c: Change, after: RawFile)
    requires raw.Valid() && CarriedOut(Some(raw), c, Some(after)) && !c.Create?
    requires Applies(Some(raw.length), c)
    ensures after.Valid()
  {
    match c
    case Truncate(n) => BlockBounds(n);
    case WriteFile(base, ws) =>
      var blocks: map<nat, seq<Byte>> :| BlocksFor(base, ws, blocks)
        && after == RawFile(NewLength(|base|, ws), raw.blocks + blocks);
      NewLengthGrows(|base|, ws);
      forall b | b in after.blocks ensures b % 4096 == 0 && b <= after.length && |after.blocks[b]| == 4096 {
        if b in blocks {
          var q: nat :| BlockOf(q) == b && Covered(ws, q);
          BlockBounds(q);
        }
      }
  }

  /** Carrying out the first pending change keeps everything in step. */
  lemma CarryOutKeeps(raw: Option<RawFile>, cs: seq<Change>, mem: Option<seq<Byte>>, after: Option<RawFile>)
    requires cs != [] && InStep(raw, cs, mem) && CarriedOut(raw, cs[0], after)
    ensures InStep(after, cs[1..], mem)
  {
    var c := cs[0];
    FirstChange(LengthOf(raw), cs);
    if mem.Some? { TailSettled(cs, mem.value); }
    if c.Create? || after.None? {
      if c.Create? && mem.Some? {
        assert Settled(cs, 0, mem.value);
        StoredByCreate(cs, mem.value, after.value);
      }
    } else {
      ValidAfter(raw.value, c, after.value);
      if mem.Some? { StoredByChange(raw.value, cs, mem.value, after.value); }
    }
  }

  lemma StoredByCreate(cs: seq<Change>, m: seq<Byte>, after: RawFile)
    requires cs != [] && cs[0].Create? && Settled(cs, 0, m) && after.blocks == map[]
    ensures StoreSettled(after, cs[1..], m)
  {
    forall p: nat
      ensures CoveredFrom(cs[1..], 0, p) <==> CoveredFrom(cs, 1, p)
      ensures DeletedFrom(cs[1..], 0) <==> DeletedFrom(cs, 1)
    {
      TailFacts(cs, 1, p);
    }
    hide CoveredFrom;
    hide DeletedFrom;
  }

  lemma StoredByChange(raw: RawFile, cs: seq<Change>, m: seq<Byte>, after: RawFile)
    requires cs != [] && raw.Valid() && !cs[0].Create? && CarriedOut(Some(raw), cs[0], Some(after))
    requires Applies(Some(raw.length), cs[0])
    requires StoreSettled(raw, cs, m) && Settled(cs, 0, m)
    ensures StoreSettled(after, cs[1..], m)
  {
    forall p: nat
      ensures CoveredFrom(cs[1..], 0, p) <==> CoveredFrom(cs, 1, p)
      ensures DeletedFrom(cs[1..], 0) <==> DeletedFrom(cs, 1)
      ensures CoveredFrom(cs, 0, p) <==> CoveredFrom(cs, 1, p) || (cs[0].WriteFile? && Covered(cs[0].writes, p))
      ensures DeletedFrom(cs, 0) <==> DeletedFrom(cs, 1) || cs[0].Delete?
      ensures RawByte(after, p) == RawByte(raw, p)
        || (Decides(cs[0], p).Some? && RawByte(after, p) == Decides(cs[0], p).value)
      ensures cs[0].WriteFile? && Covered(cs[0].writes, p) ==>
        Decides(cs[0], p).Some? && RawByte(after, p) == Decides(cs[0], p).value
    {
      TailFacts(cs, 1, p);
      HeadCovers(cs, p);
      BytesAfter(raw, cs[0], after, p);
    }
    hide CoveredFrom;
    hide DeletedFrom;
    hide RawByte;
    hide Decides;
    hide CarriedOut;
  }

  // What the program does to a file and its queue.

  /** The file's contents after a write. */
  function Overwrite(m: seq<Byte>, w: Write): (r: seq<Byte>)
    ensures |r| == Max(|m|, w.offset + |w.bytes|)
    ensures forall p :: 0 <= p < |r| ==> r[p] == LayerByte(m, [w], p)
  {
    seq(Max(|m|, w.offset + |w.bytes|), p requires 0 <= p => LayerByte(m, [w], p))
  }

  lemma OverwriteByte(m: seq<Byte>, w: Write, p: nat)
    requires p < |Overwrite(m, w)|
    ensures w.Covers(p) ==> Overwrite(m, w)[p] == w.bytes[p - w.offset]
    ensures !w.Covers(p) && p < |m| ==> Overwrite(m, w)[p] == m[p]
    ensures !w.Covers(p) && p >= |m| ==> Overwrite(m, w)[p] == 0 && p < w.offset
  {
    LastWriteWins(m, [], w, p);
    assert [] + [w] == [w];
  }

  /** A view of a buffer that is still in use shows later contents as well. */
  ghost predicate Drifted(c: Change, d: Change, m: seq<Byte>) {
    if c.WriteFile? then
      && d.WriteFile? && d.writes == c.writes && |d.base| == |c.base|
      && forall p :: 0 <= p < |c.base| && p < |m| ==> d.base[p] == c.base[p] || d.base[p] == m[p]
    else d == c
  }

  ghost predicate AllDrifted(cs: seq<Change>, ds: seq<Change>, m: seq<Byte>) {
    |cs| == |ds| && forall k :: 0 <= k < |cs| ==> Drifted(cs[k], ds[k], m)
  }

  lemma {:induction false} DriftKeepsLengths(length: Option<nat>, cs: seq<Change>, ds: seq<Change>, m: seq<Byte>)
    requires AllDrifted(cs, ds, m)
    ensures LengthAfter(length, ds) == LengthAfter(length, cs)
    ensures AllApply(length, ds) <==> AllApply(length, cs)
  {
    if cs != [] {
      DriftKeepsLengths(length, cs[..|cs| - 1], ds[..|ds| - 1], m);
      assert Drifted(cs[|cs| - 1], ds[|cs| - 1], m);
    }
  }

  lemma DriftKeepsCover(cs: seq<Change>, ds: seq<Change>, m: seq<Byte>, from: nat, p: nat)
    requires AllDrifted(cs, ds, m)
    ensures CoveredFrom(cs, from, p) <==> CoveredFrom(ds, from, p)
    ensures DeletedFrom(cs, from) <==> DeletedFrom(ds, from)
  {
    assert forall k :: 0 <= k < |cs| ==> Drifted(cs[k], ds[k], m);
    if CoveredFrom(cs, from, p) {
      var k :| from <= k < |cs| && cs[k].WriteFile? && Covered(cs[k].writes, p);
      assert ds[k].WriteFile? && Covered(ds[k].writes, p);
    }
    if CoveredFrom(ds, from, p) {
      var k :| from <= k < |ds| && ds[k].WriteFile? && Covered(ds[k].writes, p);
      assert cs[k].WriteFile? && Covered(cs[k].writes, p);
    }
  }

  lemma DriftedDecision(c: Change, d: Change, m: seq<Byte>, p: nat)
    requires Drifted(c, d, m) && p < |m|
    ensures Decides(d, p).Some? <==> Decides(c, p).Some?
    ensures Decides(c, p).Some? ==> Decides(d, p).value == Decides(c, p).value || Decides(d, p).value == m[p]
  {
    if c.WriteFile? {
      if Covered(c.writes, p) {
        CoveredByte(c.base, d.base, c.writes, p);
      } else {
        UncoveredByte(c.base, c.writes, p);
        UncoveredByte(d.base, c.writes, p);
      }
    }
  }

  /** Where the visible byte did not change, or is covered again, a drifted change stays settled. */
  lemma DriftedSettled(cs: seq<Change>, ds: seq<Change>, es: seq<Change>, k: nat, next: nat, m: seq<Byte>,
                       m': seq<Byte>)
    requires AllDrifted(cs, ds, m') && k < |cs| && Settled(cs, k, m) && next == k + 1
    requires |es| >= |ds| && es[k] == ds[k]
    requires forall p :: 0 <= p < |m'| ==> (p < |m| && m'[p] == m[p]) || CoveredFrom(es, next, p)
    requires forall p: nat :: CoveredFrom(ds, next, p) ==> CoveredFrom(es, next, p)
    requires DeletedFrom(ds, next) ==> DeletedFrom(es, next)
    ensures Settled(es, k, m')
  {
    DriftKeepsCover(cs, ds, m', next, 0);
    if !DeletedFrom(es, next) {
      forall p | 0 <= p < |m'| && Decides(es[k], p).Some?
        ensures Decides(es[k], p).value == m'[p] || CoveredFrom(es, next, p)
      {
        DriftKeepsCover(cs, ds, m', next, p);
        DriftedDecision(cs[k], ds[k], m', p);
      }
    }
  }

  lemma DriftedStore(raw: RawFile, cs: seq<Change>, ds: seq<Change>, es: seq<Change>, m: seq<Byte>, m': seq<Byte>)
    requires AllDrifted(cs, ds, m') && StoreSettled(raw, cs, m)
    requires forall p :: 0 <= p < |m'| ==> (p < |m| && m'[p] == m[p]) || CoveredFrom(es, 0, p)
    requires forall p: nat :: CoveredFrom(ds, 0, p) ==> CoveredFrom(es, 0, p)
    requires DeletedFrom(ds, 0) ==> DeletedFrom(es, 0)
    ensures StoreSettled(raw, es, m')
  {
    DriftKeepsCover(cs, ds, m', 0, 0);
    forall p: nat ensures CoveredFrom(cs, 0, p) <==> CoveredFrom(ds, 0, p) {
      DriftKeepsCover(cs, ds, m', 0, p);
    }
  }

  lemma AppendFacts(ds: seq<Change>, c: Change, from: nat, p: nat)
    requires from <= |ds|
    ensures CoveredFrom(ds + [c], from, p) <==> CoveredFrom(ds, from, p) || (c.WriteFile? && Covered(c.writes, p))
    ensures DeletedFrom(ds + [c], from) <==> DeletedFrom(ds, from) || c.Delete?
  {
    var es := ds + [c];
    assert es[|ds|] == c;
    if CoveredFrom(ds, from, p) {
      var k :| from <= k < |ds| && ds[k].WriteFile? && Covered(ds[k].writes, p);
      assert es[k] == ds[k];
    }
    if DeletedFrom(ds, from) {
      var k :| from <= k < |ds| && ds[k].Delete?;
      assert es[k] == ds[k];
    }
  }

  /** A file comes into view. */
  lemma CreateKeeps(raw: Option<RawFile>, cs: seq<Change>)
    requires InStep(raw, cs, None)
    ensures InStep(raw, cs + [Create], Some([]))
  {
    AppendedChange(LengthOf(raw), cs, Create);
  }

  /** A file is deleted; whatever was pending for it no longer matters. */
  lemma DeleteKeeps(raw: Option<RawFile>, cs: seq<Change>, mem: Option<seq<Byte>>)
    requires InStep(raw, cs, mem)
    ensures InStep(raw, cs + [Delete], None)
  {
    AppendedChange(LengthOf(raw), cs, Delete);
  }

  /** Instead of appending a deletion, the queue may be cut back to a point where the file was
      missing anyway: just before a pending creation, or just after a pending deletion. */
  lemma CutBackKeeps(raw: Option<RawFile>, cs: seq<Change>, mem: Option<seq<Byte>>, k: nat)
    requires InStep(raw, cs, mem) && k <= |cs|
    requires (k < |cs| && cs[k].Create?) || (0 < k && cs[k - 1].Delete?)
    ensures InStep(raw, cs[..k], None)
  {
    PrefixApplies(LengthOf(raw), cs, k);
    if 0 < k && cs[k - 1].Delete? {
      assert cs[..k] == cs[..k - 1] + [cs[k - 1]];
      AppendedChange(LengthOf(raw), cs[..k - 1], Delete);
    }
  }

  /** Dropping pending writes and then appending a deletion is as good. */
  lemma DropWritesKeeps(raw: Option<RawFile>, cs: seq<Change>, mem: Option<seq<Byte>>, k: nat)
    requires InStep(raw, cs, mem) && k <= |cs|
    ensures InStep(raw, cs[..k] + [Delete], None)
  {
    PrefixApplies(LengthOf(raw), cs, k);
    AppendedChange(LengthOf(raw), cs[..k], Delete);
  }

  /** A file is cut to a shorter or equal length. */
  lemma TruncateKeeps(raw: Option<RawFile>, cs: seq<Change>, ds: seq<Change>, m: seq<Byte>, n: nat)
    requires InStep(raw, cs, Some(m)) && n <= |m| && AllDrifted(cs, ds, m[..n])
    ensures InStep(raw, ds + [Truncate(n)], Some(m[..n]))
  {
    var m', es := m[..n], ds + [Truncate(n)];
    DriftKeepsLengths(LengthOf(raw), cs, ds, m');
    AppendedChange(LengthOf(raw), ds, Truncate(n));
    forall k | 0 <= k < |es| ensures Settled(es, k, m') {
      if k < |ds| {
        AppendAll(ds, Truncate(n), k + 1);
        DriftedSettled(cs, ds, es, k, k + 1, m, m');
      }
    }
    if raw.Some? {
      AppendAll(ds, Truncate(n), 0);
      DriftedStore(raw.value, cs, ds, es, m, m');
    }
  }

  lemma AppendAll(ds: seq<Change>, c: Change, from: nat)
    requires from <= |ds|
    ensures forall p: nat :: CoveredFrom(ds, from, p) ==> CoveredFrom(ds + [c], from, p)
    ensures forall p: nat :: c.WriteFile? && Covered(c.writes, p) ==> CoveredFrom(ds + [c], from, p)
    ensures DeletedFrom(ds, from) ==> DeletedFrom(ds + [c], from)
  {
    AppendFacts(ds, c, from, 0);
    forall p: nat
      ensures CoveredFrom(ds, from, p) ==> CoveredFrom(ds + [c], from, p)
      ensures c.WriteFile? && Covered(c.writes, p) ==> CoveredFrom(ds + [c], from, p)
    {
      AppendFacts(ds, c, from, p);
    }
  }

  /** A write at or before the end of the file, queued as a change of its own. */
  lemma WriteKeeps(raw: Option<RawFile>, cs: seq<Change>, ds: seq<Change>, m: seq<Byte>, w: Write, base: seq<Byte>)
    requires InStep(raw, cs, Some(m)) && w.offset <= |m|
    requires AllDrifted(cs, ds, Overwrite(m, w)) && Drifted(WriteFile(m, []), WriteFile(base, []), Overwrite(m, w))
    ensures InStep(raw, ds + [WriteFile(base, [w])], Some(Overwrite(m, w)))
  {
    var m', c := Overwrite(m, w), WriteFile(base, [w]);
    var es := ds + [c];
    DriftKeepsLengths(LengthOf(raw), cs, ds, m');
    AppendedChange(LengthOf(raw), ds, c);
    assert [w] == [] + [w];
    NewLengthSnoc(|base|, [], w);
    forall p | 0 <= p < |m'| ensures (p < |m| && m'[p] == m[p]) || Covered(c.writes, p) {
      OverwriteByte(m, w, p);
      LastWriteWins(m, [], w, p);
    }
    forall k | 0 <= k < |es| ensures Settled(es, k, m') {
      if k < |ds| {
        AppendAll(ds, c, k + 1);
        DriftedSettled(cs, ds, es, k, k + 1, m, m');
      } else {
        NewWriteSettled(es, k, m, w, base);
      }
    }
    if raw.Some? {
      AppendAll(ds, c, 0);
      DriftedStore(raw.value, cs, ds, es, m, m');
    }
  }

  lemma NewWriteSettled(es: seq<Change>, k: nat, m: seq<Byte>, w: Write, base: seq<Byte>)
    requires k < |es| && es[k] == WriteFile(base, [w]) && w.offset <= |m|
    requires Drifted(WriteFile(m, []), WriteFile(base, []), Overwrite(m, w))
    ensures Settled(es, k, Overwrite(m, w))
  {
    var m' := Overwrite(m, w);
    forall p | 0 <= p < |m'| ensures LayerByte(base, [w], p) == m'[p] {
      OverwriteByte(m, w, p);
      LastWriteWins(base, [], w, p);
      assert [] + [w] == [w];
      if !w.Covers(p) { UncoveredByte(base, [], p); }
    }
  }

  /** A write merged into the pending write that is the last change of the file. */
  lemma MergedWriteKeeps(raw: Option<RawFile>, cs: seq<Change>, ds: seq<Change>, m: seq<Byte>, w: Write)
    requires InStep(raw, cs, Some(m)) && w.offset <= |m|
    requires AllDrifted(cs, ds, Overwrite(m, w)) && ds != [] && ds[|ds| - 1].WriteFile?
    ensures InStep(raw, Merged(ds, w), Some(Overwrite(m, w)))
  {
    var m', n, es := Overwrite(m, w), |ds| - 1, Merged(ds, w);
    var c, d := ds[n], es[n];
    DriftKeepsLengths(LengthOf(raw), cs, ds, m');
    assert ds == ds[..n] + [c] && es == ds[..n] + [d];
    AppendedChange(LengthOf(raw), ds[..n], c);
    AppendedChange(LengthOf(raw), ds[..n], d);
    NewLengthSnoc(|c.base|, c.writes, w);
    forall p | 0 <= p < |m'| ensures (p < |m| && m'[p] == m[p]) || Covered(d.writes, p) {
      OverwriteByte(m, w, p);
      LastWriteWins(m, c.writes, w, p);
    }
    hide Settled;
    hide StoreSettled;
    hide CoveredFrom;
    hide DeletedFrom;
    hide Drifted;
    hide Covered;
    forall k | 0 <= k < |es| ensures Settled(es, k, m') {
      if k < n {
        MergedFacts(ds, w, k + 1);
        DriftedSettled(cs, ds, es, k, k + 1, m, m');
      } else {
        MergedSettled(cs, ds, m, w);
      }
    }
    if raw.Some? {
      MergedFacts(ds, w, 0);
      DriftedStore(raw.value, cs, ds, es, m, m');
    }
  }

  function Merged(ds: seq<Change>, w: Write): (es: seq<Change>)
    requires ds != [] && ds[|ds| - 1].WriteFile?
    ensures |es| == |ds|
  {
    var c := ds[|ds| - 1];
    ds[..|ds| - 1] + [WriteFile(c.base, c.writes + [w])]
  }

  lemma MergedFacts(ds: seq<Change>, w: Write, from: nat)
    requires ds != [] && ds[|ds| - 1].WriteFile? && from < |ds|
    ensures forall p: nat :: CoveredFrom(ds, from, p) ==> CoveredFrom(Merged(ds, w), from, p)
    ensures forall p: nat :: Covered(Merged(ds, w)[|ds| - 1].writes, p) ==> CoveredFrom(Merged(ds, w), from, p)
    ensures DeletedFrom(ds, from) ==> DeletedFrom(Merged(ds, w), from)
  {
    var n := |ds| - 1;
    var c, es := ds[n], Merged(ds, w);
    forall p: nat
      ensures CoveredFrom(ds, from, p) ==> CoveredFrom(es, from, p)
      ensures Covered(es[n].writes, p) ==> CoveredFrom(es, from, p)
    {
      LastWriteWins(c.base, c.writes, w, p);
      assert es[n].WriteFile?;
      if CoveredFrom(ds, from, p) {
        var k :| from <= k < |ds| && ds[k].WriteFile? && Covered(ds[k].writes, p);
        assert es[k].WriteFile? && Covered(es[k].writes, p);
      }
    }
    if DeletedFrom(ds, from) {
      var k :| from <= k < |ds| && ds[k].Delete?;
      assert es[k].Delete?;
    }
  }

  lemma MergedSettled(cs: seq<Change>, ds: seq<Change>, m: seq<Byte>, w: Write)
    requires |cs| == |ds| && ds != [] && ds[|ds| - 1].WriteFile? && w.offset <= |m|
    requires AllDrifted(cs, ds, Overwrite(m, w)) && Settled(cs, |cs| - 1, m)
    ensures Settled(Merged(ds, w), |ds| - 1, Overwrite(m, w))
  {
    var m', n := Overwrite(m, w), |ds| - 1;
    assert Drifted(cs[n], ds[n], m');
    var c, d := cs[n], ds[n];
    forall p | 0 <= p < |m'| ensures LayerByte(d.base, d.writes + [w], p) == m'[p] {
      LastWriteWins(d.base, d.writes, w, p);
      OverwriteByte(m, w, p);
      if !w.Covers(p) {
        DriftedDecision(c, d, m', p);
        assert Decides(c, p).value == m[p] || CoveredFrom(cs, n + 1, p);
      }
    }
  }

  // Operations the queue does not preserve. The drained, agreeing state before them is the stored
  // file itself; what is visible afterwards is compared with what is stored afterwards.

  function Extended(m: seq<Byte>, n: nat): (r: seq<Byte>)
    requires n >= |m|
    ensures |r| == n
  {
    m + seq(n - |m|, _ => 0)
  }

  /** Lengthening by truncation is faithful exactly when no old byte is left beyond the end in the
      file's last block. */
  lemma GrowingTruncateExact(raw: RawFile, n: nat)
    requires raw.Valid() && n >= raw.length
    ensures FileBytes(TruncatedRaw(raw, n)) == Extended(FileBytes(raw), n) <==>
            forall p :: raw.length <= p < n && p < BlockOf(raw.length) + 4096 ==> RawByte(raw, p) == 0
  {
    var after, want := FileBytes(TruncatedRaw(raw, n)), Extended(FileBytes(raw), n);
    assert TruncatedRaw(raw, n).blocks == raw.blocks;
    forall p: nat | p < n
      ensures after[p] == RawByte(raw, p) && want[p] == if p < raw.length then RawByte(raw, p) else 0
    {
    }
    forall p: nat | p >= BlockOf(raw.length) + 4096 ensures RawByte(raw, p) == 0 {
      BlockBounds(p);
      BlockBounds(raw.length);
    }
    if forall p :: raw.length <= p < n && p < BlockOf(raw.length) + 4096 ==> RawByte(raw, p) == 0 {
      assert forall p :: 0 <= p < n ==> after[p] == want[p];
    }
    if after == want {
      forall p | raw.length <= p < n ensures RawByte(raw, p) == 0 {
        assert after[p] == want[p];
      }
    }
  }

  /** The write changes some byte of p's block. */
  ghost predicate Touched(w: Write, p: nat) {
    exists q: nat :: w.Covers(q) && BlockOf(q) == BlockOf(p)
  }

  /** A write that starts beyond the end is faithful exactly when the gap holds no old byte outside
      the blocks the write touches. */
  lemma SparseWriteExact(raw: RawFile, w: Write, after: RawFile)
    requires raw.Valid() && w.offset > raw.length
    requires CarriedOut(Some(raw), WriteFile(FileBytes(raw), [w]), Some(after))
    ensures FileBytes(after) == Overwrite(FileBytes(raw), w) <==>
            forall p :: raw.length <= p < w.offset && !Touched(w, p) ==> RawByte(raw, p) == 0
  {
    var have, want := FileBytes(after), Overwrite(FileBytes(raw), w);
    SparseLength(raw, w, after);
    forall p: nat | p < |want|
      ensures have[p] == want[p] <==> (raw.length <= p < w.offset && !Touched(w, p) ==> RawByte(raw, p) == 0)
    {
      SparseByte(raw, w, after, p);
    }
    hide *;
    if have == want {
      forall p | raw.length <= p < w.offset && !Touched(w, p) ensures RawByte(raw, p) == 0 {
        assert have[p] == want[p];
      }
    } else {
      var p :| 0 <= p < |have| && have[p] != want[p];
    }
  }

  lemma SparseLength(raw: RawFile, w: Write, after: RawFile)
    requires w.offset > raw.length
    requires CarriedOut(Some(raw), WriteFile(FileBytes(raw), [w]), Some(after))
    ensures |FileBytes(after)| == |Overwrite(FileBytes(raw), w)| == w.offset + |w.bytes|
  {
    assert [w] == [] + [w];
    NewLengthSnoc(raw.length, [], w);
  }

  lemma SparseByte(raw: RawFile, w: Write, after: RawFile, p: nat)
    requires w.offset > raw.length && p < |FileBytes(after)| && p < |Overwrite(FileBytes(raw), w)|
    requires CarriedOut(Some(raw), WriteFile(FileBytes(raw), [w]), Some(after))
    ensures FileBytes(after)[p] == Overwrite(FileBytes(raw), w)[p] <==>
            (raw.length <= p < w.offset && !Touched(w, p) ==> RawByte(raw, p) == 0)
  {
    hide BlocksFor;
    hide LayerByte;
    hide RawByte;
    var m := FileBytes(raw);
    SparseStored(raw, w, after, p);
    SparseVisible(m, w, p);
    assert p < raw.length ==> m[p] == RawByte(raw, p);
    assert FileBytes(after)[p] == RawByte(after, p);
    hide *;
  }

  lemma SparseVisible(m: seq<Byte>, w: Write, p: nat)
    requires p < |Overwrite(m, w)|
    ensures Overwrite(m, w)[p] == LayerByte(m, [w], p)
    ensures !w.Covers(p) ==> LayerByte(m, [w], p) == if p < |m| then m[p] else 0
    ensures !w.Covers(p) && p >= |m| ==> p < w.offset
    ensures w.Covers(p) ==> w.offset <= p && Touched(w, p)
  {
    OverwriteByte(m, w, p);
    assert [w] == [] + [w];
    LastWriteWins(m, [], w, p);
  }

  lemma SparseStored(raw: RawFile, w: Write, after: RawFile, p: nat)
    requires CarriedOut(Some(raw), WriteFile(FileBytes(raw), [w]), Some(after))
    ensures RawByte(after, p) == if Touched(w, p) then LayerByte(FileBytes(raw), [w], p) else RawByte(raw, p)
  {
    var m := FileBytes(raw);
    var blocks: map<nat, seq<Byte>> :| BlocksFor(m, [w], blocks)
      && after == RawFile(NewLength(|m|, [w]), raw.blocks + blocks);
    TouchedBlocks(m, w, blocks, p);
    WrittenByte(raw, m, [w], blocks, after, p);
    hide *;
  }

  lemma TouchedBlocks(m: seq<Byte>, w: Write, blocks: map<nat, seq<Byte>>, p: nat)
    requires BlocksFor(m, [w], blocks)
    ensures BlockOf(p) in blocks <==> Touched(w, p)
  {
    assert [w] == [] + [w];
    if BlockOf(p) in blocks {
      var q: nat :| BlockOf(q) == BlockOf(p) && Covered([w], q);
      LastWriteWins(m, [], w, q);
    }
    if Touched(w, p) {
      var q: nat :| w.Covers(q) && BlockOf(q) == BlockOf(p);
      LastWriteWins(m, [], w, q);
    }
  }

  /** The one block of a file that holds the single byte 7. */
  function OneByteBlocks(): map<nat, seq<Byte>> {
    map[0 := seq(4096, i requires 0 <= i < 4096 => if i == 0 then 7 else 0)]
  }

  lemma OneByteIsStored()
    ensures BlocksFor([], [Write(0, [7])], OneByteBlocks())
  {
    var w := Write(0, [7 as Byte]);
    forall p: nat
      ensures Covered([w], p) <==> p == 0
      ensures LayerByte([], [w], p) == if p == 0 then 7 else 0
    {
      assert [w] == [] + [w];
      LastWriteWins([], [], w, p);
    }
    hide LayerByte;
    hide Covered;
    assert BlockOf(0) == 0 && Covered([w], 0);
  }

  /** The stored file before, between and after carrying out a list of changes in order. */
  ghost predicate CarriedThrough(states: seq<Option<RawFile>>, cs: seq<Change>) {
    && |states| == |cs| + 1
    && forall i, next :: 0 <= i < |cs| && next == i + 1 ==> CarriedOut(states[i], cs[i], states[next])
  }

  /** A new file with one byte written and cut to nothing again: the byte is still in its block. */
  function CutFile(): RawFile {
    RawFile(0, OneByteBlocks())
  }

  /** From nothing: created, one byte written, cut to nothing. */
  function CutFileStages(): seq<Option<RawFile>> {
    [None, Some(RawFile(0, map[])), Some(RawFile(1, OneByteBlocks())), Some(CutFile())]
  }

  lemma CutFileIsReached()
    ensures CarriedThrough(CutFileStages(), [Create, WriteFile([], [Write(0, [7])]), Truncate(0)])
  {
    var made, written := RawFile(0, map[]), RawFile(1, OneByteBlocks());
    OneByteIsStored();
    OneByteLength();
    OneByteKept();
    var states, cs := CutFileStages(), [Create, WriteFile([], [Write(0, [7])]), Truncate(0)];
    assert states[0] == None && states[1] == Some(made) && states[2] == Some(written) && states[3] == Some(CutFile());
    hide OneByteBlocks, CutFile, CutFileStages, BlocksFor, TruncatedRaw, NewLength;
    assert CarriedOut(Some(made), cs[1], Some(written));
    assert CarriedOut(Some(written), cs[2], Some(CutFile()));
    assert CarriedOut(None, cs[0], Some(made));
  }

  lemma OneByteLength()
    ensures NewLength(0, [Write(0, [7])]) == 1
    ensures map[] + OneByteBlocks() == OneByteBlocks()
  {
    assert [Write(0, [7])][..0] == [];
  }

  lemma OneByteKept()
    ensures TruncatedRaw(RawFile(1, OneByteBlocks()), 0) == CutFile()
    ensures RawByte(CutFile(), 0) == 7
  {
    assert BlockOf(0) == 0;
    assert TruncatedRaw(RawFile(1, OneByteBlocks()), 0).blocks == OneByteBlocks();
  }

  /** A concrete failure, reached from a new file: a byte is written, the file is cut to nothing and
      lengthened again. The program sees a zero; the stored file shows the old byte. */
  lemma TruncatedByteComesBack()
    ensures CarriedThrough(CutFileStages(), [Create, WriteFile([], [Write(0, [7])]), Truncate(0)])
    ensures CutFileStages()[3] == Some(CutFile())
    ensures FileBytes(CutFile()) == [] && FileBytes(TruncatedRaw(CutFile(), 1)) == [7] != Extended([], 1)
  {
    CutFileIsReached();
    OneByteKept();
    assert TruncatedRaw(CutFile(), 1) == RawFile(1, OneByteBlocks());
    hide OneByteBlocks;
    assert FileBytes(TruncatedRaw(CutFile(), 1))[0] == 7;
    assert Extended([], 1)[0] == 0;
  }

  /** The same byte comes back when the cut file is written beyond its end, in another block. */
  lemma SparseByteComesBack(after: RawFile)
    requires CarriedOut(Some(CutFile()), WriteFile([], [Write(4096, [1])]), Some(after))
    ensures |FileBytes(after)| > 0 && FileBytes(after)[0] == 7
    ensures FileBytes(after) != Overwrite([], Write(4096, [1]))
  {
    var raw, w := CutFile(), Write(4096, [1 as Byte]);
    OneByteKept();
    OneByteValid();
    assert FileBytes(raw) == [];
    hide OneByteBlocks;
    hide CutFile;
    UntouchedBlock(w, 0);
    SparseWriteExact(raw, w, after);
    var blocks: map<nat, seq<Byte>> :| BlocksFor([], [w], blocks)
      && after == RawFile(NewLength(0, [w]), raw.blocks + blocks);
    TouchedBlocks([], w, blocks, 0);
    hide BlocksFor;
    assert [w][..0] == [];
    assert NewLength(0, [w]) == 4097;
    assert RawByte(after, 0) == 7;
  }

  lemma OneByteValid()
    ensures CutFile().Valid()
  {}

  lemma UntouchedBlock(w: Write, p: nat)
    requires w.offset == 4096 && |w.bytes| == 1 && p == 0
    ensures BlockOf(p) == 0 && !Touched(w, p)
  {}

  /** Lengths follow the changes carried out. */
  lemma {:induction false} LengthCarriedThrough(states: seq<Option<RawFile>>, cs: seq<Change>)
    requires CarriedThrough(states, cs)
    ensures LengthOf(states[|cs|]) == LengthAfter(LengthOf(states[0]), cs)
  {
    hide BlocksFor;
    if cs != [] {
      var n := |cs| - 1;
      LengthCarriedThrough(states[..n + 1], cs[..n]);
      var next := n + 1;
      assert CarriedOut(states[n], cs[n], states[next]);
    }
  }

  /** A write to a name that is not visible is lost: whatever is stored and queued for the name, once
      all of it and the write are carried out nothing is stored, and no contents that the program
      could see are in step with it. */
  lemma WriteToMissingIsLost(states: seq<Option<RawFile>>, cs: seq<Change>, base: seq<Byte>, ws: seq<Write>)
    requires CarriedThrough(states, cs + [WriteFile(base, ws)]) && InStep(states[0], cs, None)
    ensures states[|cs| + 1].None?
    ensures forall m: seq<Byte> :: !InStep(states[0], cs + [WriteFile(base, ws)], Some(m))
  {
    LengthCarriedThrough(states, cs + [WriteFile(base, ws)]);
    AppendedChange(LengthOf(states[0]), cs, WriteFile(base, ws));
  }
}

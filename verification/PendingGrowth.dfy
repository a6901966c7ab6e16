/** What growing a file does while changes of it are still pending: exactly when the stored file, once
    everything has been carried out, shows what the program sees. */
module PendingGrowth {
  import opened Wrappers
  import opened BlockStore
  import opened WriteBehind

  /** The writes change some byte of p's block. */
  ghost predicate Touches(ws: seq<Write>, p: nat) {
    exists q: nat :: Covered(ws, q) && BlockOf(q) == BlockOf(p)
  }

  function StoredByte(raw: Option<RawFile>, p: nat): Byte {
    if raw.None? then 0 else RawByte(raw.value, p)
  }

  /** The byte stored at p after one change, if `stored` was there before it. */
  ghost function ByteLeft(length: Option<nat>, stored: Byte, c: Change, p: nat): Byte {
    match c
    case Create => if length.None? then 0 else stored
    case Delete => 0
    case WriteFile(base, ws) =>
      if length.None? then 0 else if Touches(ws, p) then LayerByte(base, ws, p) else stored
    case Truncate(n) =>
      if length.None? || (length.value > n && BlockOf(p) > BlockOf(n)) then 0 else stored
  }

  /** The byte that a list of changes leaves at p, whether or not p is inside the file then. */
  ghost function BytesLeft(raw: Option<RawFile>, cs: seq<Change>, p: nat): Byte {
    if cs == [] then StoredByte(raw, p)
    else
      var rest := cs[..|cs| - 1];
      ByteLeft(LengthAfter(LengthOf(raw), rest), BytesLeft(raw, rest, p), cs[|cs| - 1], p)
  }

  ghost function LeftAt(raw: Option<RawFile>, cs: seq<Change>, p: nat): Byte {
    BytesLeft(raw, cs, p)
  }

  lemma ByteCarriedOut(raw: Option<RawFile>, c: Change, after: Option<RawFile>, p: nat)
    requires CarriedOut(raw, c, after)
    ensures StoredByte(after, p) == ByteLeft(LengthOf(raw), StoredByte(raw, p), c, p)
  {
    if raw.Some? && c.WriteFile? {
      var blocks: map<nat, seq<Byte>> :| BlocksFor(c.base, c.writes, blocks)
        && after == Some(RawFile(NewLength(|c.base|, c.writes), raw.value.blocks + blocks));
      TouchedBlock(c.base, c.writes, blocks, p);
      WrittenByte(raw.value, c.base, c.writes, blocks, after.value, p);
      hide *;
    }
  }

  lemma TouchedBlock(base: seq<Byte>, ws: seq<Write>, blocks: map<nat, seq<Byte>>, p: nat)
    requires BlocksFor(base, ws, blocks)
    ensures BlockOf(p) in blocks <==> Touches(ws, p)
  {
    hide BlocksHold, BlockOf, Covered;
  }

  lemma Prefix(states: seq<Option<RawFile>>, cs: seq<Change>, k: nat)
    requires CarriedThrough(states, cs) && k <= |cs|
    ensures |states| == |cs| + 1 && CarriedThrough(states[..k + 1], cs[..k])
    ensures k < |cs| ==> CarriedOut(states[k], cs[k], states[k + 1])
  {
    hide CarriedOut;
    var next := k + 1;
    assert k < |cs| ==> CarriedOut(states[k], cs[k], states[next]);
  }

  lemma {:induction false} BytesCarriedThrough(states: seq<Option<RawFile>>, cs: seq<Change>, p: nat)
    requires CarriedThrough(states, cs)
    ensures |states| == |cs| + 1 && StoredByte(states[|cs|], p) == LeftAt(states[0], cs, p)
  {
    hide StoredByte, CarriedOut, ByteLeft, LengthAfter;
    if cs != [] {
      var n := |cs| - 1;
      Prefix(states, cs, n);
      BytesCarriedThrough(states[..n + 1], cs[..n], p);
      LengthCarriedThrough(states[..n + 1], cs[..n]);
      ByteCarriedOut(states[n], cs[n], states[n + 1], p);
    }
  }

  /** Carrying out the first k pending changes keeps everything in step. */
  lemma {:induction false} InStepCarriedThrough(states: seq<Option<RawFile>>, cs: seq<Change>, mem: Option<seq<Byte>>,
                                                k: nat)
    requires CarriedThrough(states, cs) && k <= |cs| && InStep(states[0], cs, mem)
    ensures InStep(states[k], cs[k..], mem)
  {
    hide InStep, CarriedOut;
    if k == 0 {
      assert cs[0..] == cs;
    } else {
      InStepCarriedThrough(states, cs, mem, k - 1);
      Prefix(states, cs, k - 1);
      assert cs[k - 1..][0] == cs[k - 1] && cs[k - 1..][1..] == cs[k..];
      CarryOutKeeps(states[k - 1], cs[k - 1..], mem, states[k]);
    }
  }

  /** Growing leaves the bytes that are visible already, so drifted views stay in step with them. */
  lemma DriftStaysInStep(raw: Option<RawFile>, cs: seq<Change>, ds: seq<Change>, m: seq<Byte>, grown: seq<Byte>)
    requires InStep(raw, cs, Some(m)) && AllDrifted(cs, ds, grown) && m <= grown
    ensures InStep(raw, ds, Some(m))
  {
    ShorterDrift(cs, ds, m, grown);
    DriftKeepsLengths(LengthOf(raw), cs, ds, m);
    hide Settled, StoreSettled, AllDrifted, AllApply, LengthAfter, CoveredFrom, DeletedFrom;
    forall k | 0 <= k < |ds| ensures Settled(ds, k, m) {
      SameLength(cs, ds, m);
      DriftedSettled(cs, ds, ds, k, k + 1, m, m);
    }
    if raw.Some? { DriftedStore(raw.value, cs, ds, ds, m, m); }
  }

  lemma SameLength(cs: seq<Change>, ds: seq<Change>, m: seq<Byte>)
    requires AllDrifted(cs, ds, m)
    ensures |cs| == |ds|
  {}

  lemma ShorterDrift(cs: seq<Change>, ds: seq<Change>, m: seq<Byte>, grown: seq<Byte>)
    requires AllDrifted(cs, ds, grown) && m <= grown
    ensures AllDrifted(cs, ds, m) && |cs| == |ds|
  {}

  /** All pending changes carried out: the stored file is the visible one. */
  lemma CaughtUp(states: seq<Option<RawFile>>, ds: seq<Change>, last: Change, m: seq<Byte>)
    requires CarriedThrough(states, ds + [last]) && InStep(states[0], ds, Some(m))
    ensures |states| == |ds| + 2 && states[|ds|].Some? && states[|ds|].value.Valid()
    ensures FileBytes(states[|ds|].value) == m
    ensures forall p: nat :: RawByte(states[|ds|].value, p) == LeftAt(states[0], ds, p)
    ensures CarriedOut(states[|ds|], last, states[|ds| + 1])
  {
    var n := |ds|;
    assert (ds + [last])[..n] == ds && (ds + [last])[n] == last;
    Prefix(states, ds + [last], n);
    InStepCarriedThrough(states[..n + 1], ds, Some(m), n);
    assert ds[n..] == [];
    DrainedAgrees(states[n], Some(m));
    forall p: nat ensures RawByte(states[n].value, p) == LeftAt(states[0], ds, p) {
      BytesCarriedThrough(states[..n + 1], ds, p);
    }
    assert InStep(states[n], [], Some(m));
    hide FileBytes, RawByte, LeftAt, CarriedThrough, CarriedOut;
  }

  /** A growing truncation behind pending changes is faithful exactly when these leave no old byte
      beyond the end in the file's last block. */
  lemma GrowingTruncatePending(states: seq<Option<RawFile>>, cs: seq<Change>, ds: seq<Change>, m: seq<Byte>, n: nat)
    requires CarriedThrough(states, ds + [Truncate(n)])
    requires InStep(states[0], cs, Some(m)) && n >= |m| && AllDrifted(cs, ds, Extended(m, n))
    ensures |states| == |ds| + 2 && states[|ds| + 1].Some?
    ensures FileBytes(states[|ds| + 1].value) == Extended(m, n) <==>
            forall p :: |m| <= p < n && p < BlockOf(|m|) + 4096 ==> LeftAt(states[0], ds, p) == 0
  {
    hide *;
    StateCount(states, ds + [Truncate(n)]);
    StartsExtended(m, n);
    DriftStaysInStep(states[0], cs, ds, m, Extended(m, n));
    CaughtUp(states, ds, Truncate(n), m);
    FileLength(states[|ds|].value);
    TruncateFindsFile(states[|ds|].value, n, states[|ds| + 1]);
    GrowingTruncateExact(states[|ds|].value, n);
  }

  lemma StateCount(states: seq<Option<RawFile>>, cs: seq<Change>)
    requires CarriedThrough(states, cs)
    ensures |states| == |cs| + 1
  {}

  lemma StartsExtended(m: seq<Byte>, n: nat)
    requires n >= |m|
    ensures m <= Extended(m, n)
  {}

  lemma TruncateFindsFile(raw: RawFile, n: nat, after: Option<RawFile>)
    requires CarriedOut(Some(raw), Truncate(n), after)
    ensures after == Some(TruncatedRaw(raw, n))
  {}

  lemma FileLength(raw: RawFile)
    ensures |FileBytes(raw)| == raw.length
  {}

  /** A write beyond the end behind pending changes, queued as a change of its own, is faithful exactly
      when these leave no old byte in the gap outside the blocks the write touches. */
  lemma SparseWritePending(states: seq<Option<RawFile>>, cs: seq<Change>, ds: seq<Change>, m: seq<Byte>, w: Write,
                           base: seq<Byte>)
    requires CarriedThrough(states, ds + [WriteFile(base, [w])])
    requires InStep(states[0], cs, Some(m)) && w.offset > |m| && AllDrifted(cs, ds, Overwrite(m, w))
    requires Drifted(WriteFile(m, []), WriteFile(base, []), Overwrite(m, w))
    ensures |states| == |ds| + 2 && states[|ds| + 1].Some?
    ensures FileBytes(states[|ds| + 1].value) == Overwrite(m, w) <==>
            forall p :: |m| <= p < w.offset && !Touched(w, p) ==> LeftAt(states[0], ds, p) == 0
  {
    BeyondTheEnd(m, w);
    assert base == m;
    DriftStaysInStep(states[0], cs, ds, m, Overwrite(m, w));
    CaughtUp(states, ds, WriteFile(m, [w]), m);
    FileLength(states[|ds|].value);
    WriteFindsFile(states[|ds|].value, m, [w], states[|ds| + 1]);
    hide InStep, AllDrifted, FileBytes, RawByte, LeftAt, Overwrite, CarriedThrough, CarriedOut, Touched;
    SparseWriteExact(states[|ds|].value, w, states[|ds| + 1].value);
  }

  lemma WriteFindsFile(raw: RawFile, base: seq<Byte>, ws: seq<Write>, after: Option<RawFile>)
    requires CarriedOut(Some(raw), WriteFile(base, ws), after)
    ensures after.Some?
  {}

  lemma BeyondTheEnd(m: seq<Byte>, w: Write)
    requires w.offset > |m|
    ensures m <= Overwrite(m, w)
  {
    forall p | 0 <= p < |m| ensures Overwrite(m, w)[p] == m[p] { OverwriteByte(m, w, p); }
  }

  /** Merged into the pending write that is the file's last change, it is faithful exactly when the
      changes before that write leave no old byte in the gap outside the blocks either write touches. */
  lemma MergedSparseWrite(states: seq<Option<RawFile>>, cs: seq<Change>, ds: seq<Change>, m: seq<Byte>, w: Write)
    requires ds != [] && ds[|ds| - 1].WriteFile? && CarriedThrough(states, Merged(ds, w))
    requires InStep(states[0], cs, Some(m)) && w.offset > |m| && AllDrifted(cs, ds, Overwrite(m, w))
    ensures |states| == |ds| + 1 && states[|ds|].Some?
    ensures var earlier, laid := ds[..|ds| - 1], ds[|ds| - 1].writes + [w];
            FileBytes(states[|ds|].value) == Overwrite(m, w) <==>
            forall p :: |m| <= p < w.offset && !Touches(laid, p) ==> LeftAt(states[0], earlier, p) == 0
  {
    BeyondTheEnd(m, w);
    DriftStaysInStep(states[0], cs, ds, m, Overwrite(m, w));
    var n, c := |ds| - 1, ds[|ds| - 1];
    var last := WriteFile(c.base, c.writes + [w]);
    BeforeLast(states, ds, c, last, m);
    assert Merged(ds, w) == ds[..n] + [last];
    MergedIsExact(states[n], c.base, c.writes, w, m, states[n + 1]);
    hide *;
    assert forall p: nat :: StoredByte(states[n], p) == LeftAt(states[0], ds[..n], p);
  }

  /** Everything but the last change carried out. */
  lemma BeforeLast(states: seq<Option<RawFile>>, ds: seq<Change>, c: Change, last: Change, m: seq<Byte>)
    requires ds != [] && ds[|ds| - 1] == c && CarriedThrough(states, ds[..|ds| - 1] + [last])
    requires InStep(states[0], ds, Some(m))
    ensures |states| == |ds| + 1 && InStep(states[|ds| - 1], [c], Some(m))
    ensures CarriedOut(states[|ds| - 1], last, states[|ds|])
    ensures var raw, earlier := states[|ds| - 1], ds[..|ds| - 1];
            forall p: nat :: StoredByte(raw, p) == LeftAt(states[0], earlier, p)
  {
    hide InStep, CarriedOut, LeftAt, StoredByte;
    var n := |ds| - 1;
    assert (ds[..n] + [last])[..n] == ds[..n] && (ds[..n] + [last])[n] == last;
    Prefix(states, ds[..n] + [last], n);
    forall p: nat ensures StoredByte(states[n], p) == LeftAt(states[0], ds[..n], p) {
      BytesCarriedThrough(states[..n + 1], ds[..n], p);
    }
    StepsBefore(states[..n + 1], ds, Some(m));
  }

  lemma {:induction false} StepsBefore(states: seq<Option<RawFile>>, ds: seq<Change>, mem: Option<seq<Byte>>)
    requires ds != [] && CarriedThrough(states, ds[..|ds| - 1]) && InStep(states[0], ds, mem)
    ensures |states| == |ds| && InStep(states[|ds| - 1], [ds[|ds| - 1]], mem)
  {
    hide InStep, CarriedOut;
    if |ds| == 1 {
      assert ds == [ds[0]];
    } else {
      var next := 1;
      assert CarriedOut(states[0], ds[..|ds| - 1][0], states[next]);
      CarryOutKeeps(states[0], ds, mem, states[1]);
      RestCarriedThrough(states, ds);
      StepsBefore(states[1..], ds[1..], mem);
    }
  }

  lemma RestCarriedThrough(states: seq<Option<RawFile>>, ds: seq<Change>)
    requires |ds| > 1 && CarriedThrough(states, ds[..|ds| - 1])
    ensures |states| == |ds| && CarriedThrough(states[1..], ds[1..][..|ds| - 2])
  {
    hide CarriedOut;
    var rest, cs := states[1..], ds[1..][..|ds| - 2];
    forall i, next | 0 <= i < |cs| && next == i + 1 ensures CarriedOut(rest[i], cs[i], rest[next]) {
      var j := next + 1;
      assert CarriedOut(states[next], ds[..|ds| - 1][next], states[j]);
    }
  }

  lemma MergedIsExact(before: Option<RawFile>, base: seq<Byte>, ws: seq<Write>, w: Write, m: seq<Byte>,
                      after: Option<RawFile>)
    requires InStep(before, [WriteFile(base, ws)], Some(m)) && w.offset > |m|
    requires CarriedOut(before, WriteFile(base, ws + [w]), after)
    ensures after.Some?
    ensures FileBytes(after.value) == Overwrite(m, w) <==>
            forall p :: |m| <= p < w.offset && !Touches(ws + [w], p) ==> StoredByte(before, p) == 0
  {
    LastWriteInStep(before, base, ws, m);
    WriteFindsFile(before.value, base, ws + [w], after);
    var have, want := FileBytes(after.value), Overwrite(m, w);
    MergedLength(before.value, base, ws, w, m, after.value);
    forall p: nat | p < |want|
      ensures have[p] == want[p] <==> (|m| <= p < w.offset && !Touches(ws + [w], p) ==> StoredByte(before, p) == 0)
    {
      MergedByte(before.value, base, ws, w, m, after.value, p);
    }
    hide *;
    if have == want {
      forall p | |m| <= p < w.offset && !Touches(ws + [w], p) ensures StoredByte(before, p) == 0 {
        assert have[p] == want[p];
      }
    } else {
      var p :| 0 <= p < |have| && have[p] != want[p];
    }
  }

  /** A file in step with a single pending write. */
  lemma LastWriteInStep(before: Option<RawFile>, base: seq<Byte>, ws: seq<Write>, m: seq<Byte>)
    requires InStep(before, [WriteFile(base, ws)], Some(m))
    ensures before.Some? && before.value.length == |base| && |m| == NewLength(|base|, ws)
    ensures forall p: nat :: p < |m| ==> LayerByte(base, ws, p) == m[p]
    ensures forall p: nat :: p < |m| && !Covered(ws, p) ==> RawByte(before.value, p) == m[p]
  {
    var cs := [WriteFile(base, ws)];
    AppendedChange(LengthOf(before), [], WriteFile(base, ws));
    assert [] + cs == cs && cs[0] == WriteFile(base, ws);
    assert Settled(cs, 0, m) && StoreSettled(before.value, cs, m);
    assert !DeletedFrom(cs, 0) && !DeletedFrom(cs, 1);
    hide LayerByte, Covered, RawByte, NewLength;
    forall p: nat | p < |m| ensures LayerByte(base, ws, p) == m[p] {
      assert !CoveredFrom(cs, 1, p) && Decides(cs[0], p) == Some(LayerByte(base, ws, p));
    }
    forall p: nat | p < |m| && !Covered(ws, p) ensures RawByte(before.value, p) == m[p] {
      assert !CoveredFrom(cs, 0, p);
    }
  }

  lemma MergedLength(raw: RawFile, base: seq<Byte>, ws: seq<Write>, w: Write, m: seq<Byte>, after: RawFile)
    requires |m| == NewLength(|base|, ws) && w.offset > |m|
    requires CarriedOut(Some(raw), WriteFile(base, ws + [w]), Some(after))
    ensures |FileBytes(after)| == |Overwrite(m, w)| == w.offset + |w.bytes|
  {
    NewLengthSnoc(|base|, ws, w);
  }

  lemma MergedByte(raw: RawFile, base: seq<Byte>, ws: seq<Write>, w: Write, m: seq<Byte>, after: RawFile, p: nat)
    requires |m| == NewLength(|base|, ws) && w.offset > |m|
    requires forall q: nat :: q < |m| ==> LayerByte(base, ws, q) == m[q]
    requires forall q: nat :: q < |m| && !Covered(ws, q) ==> RawByte(raw, q) == m[q]
    requires CarriedOut(Some(raw), WriteFile(base, ws + [w]), Some(after))
    requires p < |FileBytes(after)| && p < |Overwrite(m, w)|
    ensures FileBytes(after)[p] == Overwrite(m, w)[p] <==>
            (|m| <= p < w.offset && !Touches(ws + [w], p) ==> StoredByte(Some(raw), p) == 0)
  {
    ByteCarriedOut(Some(raw), WriteFile(base, ws + [w]), Some(after), p);
    LastWriteWins(base, ws, w, p);
    SparseVisible(m, w, p);
    NewLengthGrows(|base|, ws);
    if !Covered(ws, p) { UncoveredByte(base, ws, p); }
    assert Covered(ws + [w], p) ==> Touches(ws + [w], p);
    assert FileBytes(after)[p] == RawByte(after, p);
    OverwriteByte(m, w, p);
    hide LayerByte, Covered, RawByte, CarriedOut, NewLength, FileBytes, Overwrite, Touches, Touched;
  }
}

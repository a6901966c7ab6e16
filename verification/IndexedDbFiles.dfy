/** The worker's file system: files in memory, and a queue that writes changes behind to the block
    store. Buffers are numbered so that a queued write's view of a buffer keeps showing the buffer. */
module IndexedDbFiles {
  import opened Wrappers
  import opened BlockStore
  import opened WriteBehind

  /** A window on a Uint8Array, or the bytes it showed when the block writer was built. */
  datatype View = Live(buffer: nat, length: nat) | Frozen(bytes: seq<Byte>)

  /** A growable buffer: the array that backs it and how much of it is in use. */
  datatype Buffer = Buffer(id: nat, length: nat)

  datatype WorkItem =
    | CreateItem(name: string)
    | DeleteItem(name: string)
    | WriteItem(name: string, view: View, writes: seq<Write>)
    | TruncateItem(name: string, length: nat)

  function Shown(v: View, arrays: map<nat, seq<Byte>>): seq<Byte> {
    match v
    case Frozen(bytes) => bytes
    case Live(id, length) => if id in arrays && length <= |arrays[id]| then arrays[id][..length] else []
  }

  function AsChange(item: WorkItem, arrays: map<nat, seq<Byte>>): Change {
    match item
    case CreateItem(_) => Create
    case DeleteItem(_) => Delete
    case WriteItem(_, view, writes) => WriteFile(Shown(view, arrays), writes)
    case TruncateItem(_, n) => Truncate(n)
  }

  /** The pending changes of one file, in order. */
  function ChangesOf(items: seq<WorkItem>, x: string, arrays: map<nat, seq<Byte>>): seq<Change> {
    if items == [] then [] else
      ChangesOf(items[..|items| - 1], x, arrays)
      + if items[|items| - 1].name == x then [AsChange(items[|items| - 1], arrays)] else []
  }

  lemma ChangesSnoc(items: seq<WorkItem>, item: WorkItem, x: string, arrays: map<nat, seq<Byte>>)
    ensures ChangesOf(items + [item], x, arrays) ==
              ChangesOf(items, x, arrays) + if item.name == x then [AsChange(item, arrays)] else []
  {
    assert (items + [item])[..|items|] == items;
  }

  lemma NoItems(x: string, arrays: map<nat, seq<Byte>>)
    ensures ChangesOf([], x, arrays) == []
  {}

  lemma {:induction false} ChangesConcat(a: seq<WorkItem>, b: seq<WorkItem>, x: string, arrays: map<nat, seq<Byte>>)
    ensures ChangesOf(a + b, x, arrays) == ChangesOf(a, x, arrays) + ChangesOf(b, x, arrays)
  {
    hide *;
    if b == [] {
      NoItems(x, arrays);
      assert a + b == a;
    } else {
      var rest, last := b[..|b| - 1], b[|b| - 1];
      assert a + b == (a + rest) + [last] && b == rest + [last];
      ChangesConcat(a, rest, x, arrays);
      ChangesSnoc(a + rest, last, x, arrays);
      ChangesSnoc(rest, last, x, arrays);
    }
  }

  lemma {:induction false} NoChanges(items: seq<WorkItem>, x: string, arrays: map<nat, seq<Byte>>)
    requires forall j :: 0 <= j < |items| ==> items[j].name != x
    ensures ChangesOf(items, x, arrays) == []
  {
    if items != [] { NoChanges(items[..|items| - 1], x, arrays); }
  }

  /** Changes are read through views only, so equal views give equal changes. */
  lemma {:induction false} SameViews(items: seq<WorkItem>, x: string, arrays: Arrays, arrays': Arrays)
    requires forall j :: 0 <= j < |items| && items[j].name == x ==>
      AsChange(items[j], arrays') == AsChange(items[j], arrays)
    ensures ChangesOf(items, x, arrays') == ChangesOf(items, x, arrays)
  {
    if items != [] { SameViews(items[..|items| - 1], x, arrays, arrays'); }
  }

  lemma {:induction false} DriftedViews(items: seq<WorkItem>, x: string, arrays: Arrays, arrays': Arrays, m: seq<Byte>)
    requires forall j :: 0 <= j < |items| && items[j].name == x ==>
      Drifted(AsChange(items[j], arrays), AsChange(items[j], arrays'), m)
    ensures AllDrifted(ChangesOf(items, x, arrays), ChangesOf(items, x, arrays'), m)
  {
    if items != [] { DriftedViews(items[..|items| - 1], x, arrays, arrays', m); }
  }

  /** How a new change of a file joins the file's pending changes: appended; a write merged into the
      last pending write; a deletion that cancels pending writes and perhaps a creation. */
  ghost predicate Queued(old_: seq<Change>, now: seq<Change>, c: Change) {
    match c
    case WriteFile(base, ws) =>
      now == old_ + [c] || (|ws| == 1 && old_ != [] && old_[|old_| - 1].WriteFile? && now == Merged(old_, ws[0]))
    case Delete => exists k :: 0 <= k <= |old_| && CutTo(old_, now, k)
    case _ => now == old_ + [c]
  }

  predicate CutTo(old_: seq<Change>, now: seq<Change>, k: nat)
    requires k <= |old_|
  {
    || now == old_[..k] + [Delete]
    || (now == old_[..k] && ((k < |old_| && old_[k].Create?) || (0 < k && old_[k - 1].Delete?)))
  }

  lemma QueuedAfter(head: seq<Change>, old_: seq<Change>, now: seq<Change>, c: Change)
    requires Queued(old_, now, c)
    ensures Queued(head + old_, head + now, c)
  {
    match c
    case Delete =>
      var k :| 0 <= k <= |old_| && CutTo(old_, now, k);
      assert (head + old_)[..|head| + k] == head + old_[..k];
      assert CutTo(head + old_, head + now, |head| + k) by {
        if now == old_[..k] + [Delete] {
          assert head + now == (head + old_[..k]) + [Delete];
        }
      }
    case WriteFile(base, ws) =>
      if now == old_ + [c] {
        assert head + now == (head + old_) + [c];
      } else {
        assert (head + old_)[..|head + old_| - 1] == head + old_[..|old_| - 1];
        assert head + now == Merged(head + old_, ws[0]);
      }
    case _ =>
      assert head + now == (head + old_) + [c];
  }

  lemma DeleteQueuedKeeps(raw: Option<RawFile>, cs: seq<Change>, es: seq<Change>, mem: Option<seq<Byte>>)
    requires InStep(raw, cs, mem) && Queued(cs, es, Delete)
    ensures InStep(raw, es, None)
  {
    hide InStep;
    var k :| 0 <= k <= |cs| && CutTo(cs, es, k);
    if es == cs[..k] + [Delete] {
      DropWritesKeeps(raw, cs, mem, k);
    } else {
      CutBackKeeps(raw, cs, mem, k);
    }
  }

  lemma WriteQueuedKeeps(raw: Option<RawFile>, cs: seq<Change>, ds: seq<Change>, es: seq<Change>, m: seq<Byte>,
                         w: Write, base: seq<Byte>)
    requires InStep(raw, cs, Some(m)) && w.offset <= |m|
    requires AllDrifted(cs, ds, Overwrite(m, w)) && Drifted(WriteFile(m, []), WriteFile(base, []), Overwrite(m, w))
    requires Queued(ds, es, WriteFile(base, [w]))
    ensures InStep(raw, es, Some(Overwrite(m, w)))
  {
    hide InStep;
    hide AllDrifted;
    if es == ds + [WriteFile(base, [w])] {
      WriteKeeps(raw, cs, ds, m, w, base);
    } else {
      MergedWriteKeeps(raw, cs, ds, m, w);
    }
  }

  type Arrays = map<nat, seq<Byte>>

  ghost predicate BufferOk(b: Buffer, arrays: Arrays) {
    && b.id in arrays && b.length <= |arrays[b.id]|
    && forall i :: b.length <= i < |arrays[b.id]| ==> arrays[b.id][i] == 0
  }

  /** Each file has its own buffer, whose unused tail is zero. */
  ghost predicate BuffersOk(files: map<string, Buffer>, arrays: Arrays, nextArray: nat) {
    && (forall id :: id in arrays ==> id < nextArray)
    && (forall x :: x in files ==> BufferOk(files[x], arrays))
    && (forall x, y :: x in files && y in files && files[x].id == files[y].id ==> x == y)
  }

  /** A queued write only ever looks at buffers of its own file. */
  ghost predicate ViewOk(item: WorkItem, files: map<string, Buffer>, arrays: Arrays) {
    item.WriteItem? && item.view.Live? ==>
      && item.view.buffer in arrays && item.view.length <= |arrays[item.view.buffer]|
      && forall y :: y in files && files[y].id == item.view.buffer ==> y == item.name
  }

  ghost predicate ViewsOk(items: seq<WorkItem>, files: map<string, Buffer>, arrays: Arrays) {
    forall j :: 0 <= j < |items| ==> ViewOk(items[j], files, arrays)
  }

  /** What an in-memory change of one file does to the arrays: other arrays keep their bytes, and a
      byte of the file's own old array stays or becomes the file's new byte. */
  ghost predicate ArraysDrift(arrays: Arrays, arrays': Arrays, own: Option<nat>, m: seq<Byte>) {
    forall id :: id in arrays ==>
      && id in arrays' && |arrays'[id]| == |arrays[id]|
      && (own != Some(id) ==> arrays'[id] == arrays[id])
      && forall p :: 0 <= p < |arrays[id]| && p < |m| ==> arrays'[id][p] == arrays[id][p] || arrays'[id][p] == m[p]
  }

  function OwnArray(files: map<string, Buffer>, name: string): Option<nat> {
    if name in files then Some(files[name].id) else None
  }

  lemma ItemDrift(item: WorkItem, files: map<string, Buffer>, arrays: Arrays, arrays': Arrays, name: string,
                  m: seq<Byte>)
    requires ViewOk(item, files, arrays) && ArraysDrift(arrays, arrays', OwnArray(files, name), m)
    ensures item.name != name ==> AsChange(item, arrays') == AsChange(item, arrays)
    ensures item.name == name ==> Drifted(AsChange(item, arrays), AsChange(item, arrays'), m)
  {
    if item.WriteItem? && item.view.Live? {
      var id, n := item.view.buffer, item.view.length;
      assert Shown(item.view, arrays) == arrays[id][..n] && Shown(item.view, arrays') == arrays'[id][..n];
    }
  }

  /** Changing one file in memory leaves other files' pending changes alone and lets its own drift. */
  lemma ChangesDrift(items: seq<WorkItem>, files: map<string, Buffer>, arrays: Arrays, arrays': Arrays, name: string,
                     m: seq<Byte>)
    requires ViewsOk(items, files, arrays) && ArraysDrift(arrays, arrays', OwnArray(files, name), m)
    ensures forall y :: y != name ==> ChangesOf(items, y, arrays') == ChangesOf(items, y, arrays)
    ensures AllDrifted(ChangesOf(items, name, arrays), ChangesOf(items, name, arrays'), m)
  {
    forall j | 0 <= j < |items|
      ensures items[j].name != name ==> AsChange(items[j], arrays') == AsChange(items[j], arrays)
      ensures items[j].name == name ==> Drifted(AsChange(items[j], arrays), AsChange(items[j], arrays'), m)
    {
      ItemDrift(items[j], files, arrays, arrays', name, m);
    }
    hide Drifted;
    hide AllDrifted;
    hide AsChange;
    forall y | y != name ensures ChangesOf(items, y, arrays') == ChangesOf(items, y, arrays) {
      SameViews(items, y, arrays, arrays');
    }
    DriftedViews(items, name, arrays, arrays', m);
  }

  /** The store's name index is one-to-one, and remembered ids are the indexed ones. */
  ghost predicate StoreOk(ids: map<string, int>, index: map<string, int>, rows: map<int, RawFile>, nextId: int) {
    && (forall x :: x in index ==> index[x] in rows && index[x] < nextId)
    && (forall id :: id in rows ==> id < nextId)
    && (forall x, y :: x in index && y in index && index[x] == index[y] ==> x == y)
    && (forall x :: x in ids ==> x in index && ids[x] == index[x])
  }

  function BytesOf(files: map<string, Buffer>, arrays: Arrays, x: string): seq<Byte> {
    if x in files && files[x].id in arrays && files[x].length <= |arrays[files[x].id]|
    then arrays[files[x].id][..files[x].length] else []
  }

  function RowOf(index: map<string, int>, rows: map<int, RawFile>, x: string): Option<RawFile> {
    if x in index && index[x] in rows then Some(rows[index[x]]) else None
  }

  /** Everything the agreement between memory, queue and store depends on. */
  datatype Snapshot = Snapshot(
    files: map<string, Buffer>, arrays: Arrays, temporary: set<string>,
    items: seq<WorkItem>, index: map<string, int>, rows: map<int, RawFile>)
  {
    function Contents(x: string): seq<Byte> {
      BytesOf(files, arrays, x)
    }

    /** What the program sees under a name, unless the file is temporary. */
    function Visible(x: string): Option<seq<Byte>> {
      if x in files && x !in temporary then Some(Contents(x)) else None
    }

    function Stored(x: string): Option<RawFile> {
      RowOf(index, rows, x)
    }

    function Changes(x: string): seq<Change> {
      ChangesOf(items, x, arrays)
    }

    ghost predicate FileInStep(x: string) {
      InStep(Stored(x), Changes(x), Visible(x))
    }

    /** Every file's stored state, pending changes and visible contents agree. */
    ghost predicate AllInStep() {
      forall x :: FileInStep(x)
    }

    ghost predicate SameElsewhere(t: Snapshot, name: string) {
      forall y :: y != name ==> t.Stored(y) == Stored(y) && t.Changes(y) == Changes(y) && t.Visible(y) == Visible(y)
    }
  }

  lemma OneFileChanged(s: Snapshot, t: Snapshot, name: string)
    requires s.AllInStep() && s.SameElsewhere(t, name) && t.FileInStep(name)
    ensures t.AllInStep()
  {
    hide InStep;
    forall x ensures t.FileInStep(x) {
      assert s.FileInStep(x);
    }
  }

  /** A change of one file's memory, as the others and its own pending changes see it. */
  lemma MemoryChanged(s: Snapshot, t: Snapshot, nextArray: nat, name: string, m: seq<Byte>)
    requires t == s.(files := t.files, arrays := t.arrays)
    requires BuffersOk(s.files, s.arrays, nextArray) && ViewsOk(s.items, s.files, s.arrays)
    requires name in t.files && t.files == s.files[name := t.files[name]]
    requires ArraysDrift(s.arrays, t.arrays, OwnArray(s.files, name), m)
    ensures s.SameElsewhere(t, name)
    ensures forall y :: y != name ==> t.Contents(y) == s.Contents(y)
    ensures AllDrifted(s.Changes(name), t.Changes(name), m)
  {
    ChangesDrift(s.items, s.files, s.arrays, t.arrays, name, m);
    forall y | y != name ensures t.Contents(y) == s.Contents(y) {
      if y in s.files { assert BufferOk(s.files[y], s.arrays); }
    }
  }

  /** A file the store does not see stays in step whatever happens to its memory. */
  lemma HiddenDrift(s: Snapshot, t: Snapshot, name: string, m: seq<Byte>)
    requires s.FileInStep(name) && s.Visible(name).None? && t.Visible(name).None? && t.Stored(name) == s.Stored(name)
    requires AllDrifted(s.Changes(name), t.Changes(name), m)
    ensures t.FileInStep(name)
  {
    DriftKeepsLengths(LengthOf(s.Stored(name)), s.Changes(name), t.Changes(name), m);
  }

  lemma CreatedRow(ids: map<string, int>, index: map<string, int>, rows: map<int, RawFile>, nextId: int, name: string)
    requires StoreOk(ids, index, rows, nextId)
    ensures name in index ==> CarriedOut(RowOf(index, rows, name), Create, RowOf(index, rows, name))
    ensures name !in index ==>
      var index', rows' := index[name := nextId], rows[nextId := RawFile(0, map[])];
      && StoreOk(ids[name := nextId], index', rows', nextId + 1)
      && CarriedOut(RowOf(index, rows, name), Create, RowOf(index', rows', name))
      && forall y :: y != name ==> RowOf(index', rows', y) == RowOf(index, rows, y)
  {
  }

  lemma DeletedRow(ids: map<string, int>, index: map<string, int>, rows: map<int, RawFile>, nextId: int, name: string)
    requires StoreOk(ids, index, rows, nextId)
    ensures name !in index ==> CarriedOut(RowOf(index, rows, name), Delete, RowOf(index, rows, name))
    ensures name in index ==>
      var index' := map n | n in index && index[n] != index[name] :: index[n];
      var rows' := rows - {index[name]};
      && StoreOk(ids - {name}, index', rows', nextId)
      && CarriedOut(RowOf(index, rows, name), Delete, RowOf(index', rows', name))
      && forall y :: y != name ==> RowOf(index', rows', y) == RowOf(index, rows, y)
  {
  }

  class IndexedDbFileSystem {
    var files: map<string, Buffer>
    var arrays: map<nat, seq<Byte>>
    var nextArray: nat
    var temporary: set<string>
    var queue: seq<WorkItem>
    var running: Option<WorkItem>
    var ids: map<string, int>
    var index: map<string, int>
    var rows: map<int, RawFile>
    var nextId: int

    function Pending(): seq<WorkItem>
      reads this
    {
      (if running.Some? then [running.value] else []) + queue
    }

    function Now(): Snapshot
      reads this
    {
      Snapshot(files, arrays, temporary, Pending(), index, rows)
    }

    ghost predicate Valid()
      reads this
    {
      && BuffersOk(files, arrays, nextArray)
      && ViewsOk(Pending(), files, arrays)
      && StoreOk(ids, index, rows, nextId)
      && temporary <= files.Keys
    }

    /** Nothing is queued and nothing is being carried out. */
    predicate Drained()
      reads this
    {
      queue == [] && running.None?
    }

    constructor ()
      ensures Valid() && Now().AllInStep() && Drained() && files == map[]
    {
      files, arrays, nextArray, temporary := map[], map[], 0, {};
      queue, running, ids, index, rows, nextId := [], None, map[], map[], map[], 1;
    }

    /** The property the file system is for: once the queue has drained, the block store holds
        exactly the files the program sees, byte for byte, and no others. */
    lemma DrainedStoreMatches(x: string)
      requires Valid() && Now().AllInStep() && Drained()
      ensures x in index <==> x in files && x !in temporary
      ensures x in index ==> FileBytes(rows[index[x]]) == Now().Contents(x)
    {
      assert Now().FileInStep(x);
      DrainedAgrees(Now().Stored(x), Now().Visible(x));
    }

    /** Takes the next item off the queue when nothing is being carried out. */
    method StartNext()
      modifies this`running, this`queue
      ensures Pending() == old(Pending())
      ensures running.None? ==> queue == []
    {
      if running.None? && queue != [] {
        running, queue := Some(queue[0]), queue[1..];
      }
    }

    /** A write joins a pending write of the same file unless a change that is not a write, or the
        file's creation, stands in between. */
    method MergeWrite(item: WorkItem) returns (appended: bool)
      requires item.WriteItem? && |item.writes| == 1
      requires ViewsOk(queue, files, arrays) && ViewOk(item, files, arrays)
      modifies this`queue
      ensures ViewsOk(queue, files, arrays)
      ensures forall y :: y != item.name ==> ChangesOf(queue, y, arrays) == ChangesOf(old(queue), y, arrays)
      ensures Queued(ChangesOf(old(queue), item.name, arrays), ChangesOf(queue, item.name, arrays),
        AsChange(item, arrays))
    {
      hide Queued;
      var i := |queue| - 1;
      while i >= 0
        invariant -1 <= i < |queue| && queue == old(queue)
        invariant forall j :: i < j < |queue| ==> queue[j].name != item.name
      {
        var r := queue[i];
        if r.WriteItem? {
          if r.name == item.name {
            var merged := WriteItem(r.name, r.view, r.writes + item.writes);
            MergeAt(queue, i, item, merged, arrays);
            queue := queue[i := merged];
            return false;
          }
        } else if r.CreateItem? {
          if r.name == item.name { break; }
        } else {
          break;
        }
        i := i - 1;
      }
      AppendItem(queue, item, arrays);
      queue := queue + [item];
      return true;
    }

    /** A deletion drops pending writes of the same file, and cancels against its creation. */
    method MergeDelete(item: WorkItem) returns (appended: bool)
      requires item.DeleteItem? && ViewsOk(queue, files, arrays)
      modifies this`queue
      ensures ViewsOk(queue, files, arrays)
      ensures forall y :: y != item.name ==> ChangesOf(queue, y, arrays) == ChangesOf(old(queue), y, arrays)
      ensures Queued(ChangesOf(old(queue), item.name, arrays), ChangesOf(queue, item.name, arrays),
        AsChange(item, arrays))
    {
      hide Trimmed, Queued, ViewsOk, ChangesOf, AsChange;
      ghost var q0 := queue;
      var i := |queue| - 1;
      NothingTrimmed(q0, item, files, arrays);
      while i >= 0
        invariant -1 <= i < |queue| && Trimmed(q0, queue, i, item, files, arrays)
      {
        var s := queue[i];
        if s.DeleteItem? {
          if s.name == item.name {
            TrimmedToDeletion(q0, queue, i, item, files, arrays);
            return false;
          }
          SkipOther(q0, queue, i, item, files, arrays);
        } else if s.WriteItem? {
          if s.name == item.name {
            TrimItem(q0, queue, i, item, files, arrays);
            queue := queue[..i] + queue[i + 1..];
          } else {
            SkipOther(q0, queue, i, item, files, arrays);
          }
        } else if s.CreateItem? {
          if s.name == item.name {
            TrimmedToCreation(q0, queue, i, item, files, arrays);
            queue := queue[..i] + queue[i + 1..];
            return false;
          }
          SkipOther(q0, queue, i, item, files, arrays);
        } else {
          break;
        }
        i := i - 1;
      }
      TrimmedThenDeleted(q0, queue, i, item, files, arrays);
      queue := queue + [item];
      return true;
    }

    /** The queue's answer to a new item. */
    method JoinQueue(item: WorkItem) returns (appended: bool)
      requires item.WriteItem? ==> |item.writes| == 1
      requires ViewsOk(queue, files, arrays) && ViewOk(item, files, arrays)
      modifies this`queue
      ensures ViewsOk(queue, files, arrays)
      ensures forall y :: y != item.name ==> ChangesOf(queue, y, arrays) == ChangesOf(old(queue), y, arrays)
      ensures Queued(ChangesOf(old(queue), item.name, arrays), ChangesOf(queue, item.name, arrays),
        AsChange(item, arrays))
    {
      hide Queued;
      hide ChangesOf;
      hide AsChange;
      hide ViewOk;
      hide ViewsOk;
      if item.WriteItem? {
        appended := MergeWrite(item);
      } else if item.DeleteItem? {
        appended := MergeDelete(item);
      } else {
        AppendItem(queue, item, arrays);
        AppendView(queue, item, files, arrays);
        queue := queue + [item];
        appended := true;
      }
    }

    /** Hands an item to the queue and starts the worker when it was idle. */
    method Submit(item: WorkItem)
      requires item.WriteItem? ==> |item.writes| == 1
      requires ViewsOk(Pending(), files, arrays) && ViewOk(item, files, arrays)
      modifies this`running, this`queue
      ensures ViewsOk(Pending(), files, arrays)
      ensures old(Now()).SameElsewhere(Now(), item.name)
      ensures Now().Visible(item.name) == old(Now().Visible(item.name))
        && Now().Stored(item.name) == old(Now().Stored(item.name))
      ensures Queued(old(Now().Changes(item.name)), Now().Changes(item.name), AsChange(item, arrays))
    {
      hide Queued;
      hide ViewsOk;
      hide ViewOk;
      hide ChangesOf;
      hide AsChange;
      ghost var s, q0, head := Now(), queue, if running.Some? then [running.value] else [];
      ViewsSplit(head, queue, files, arrays);
      var appended := JoinQueue(item);
      HeadFirst(head, q0, queue, item, arrays);
      ViewsSplit(head, queue, files, arrays);
      ghost var t := s.(items := head + queue);
      Joined(s, t, item);
      if appended { StartNext(); }
      assert Now() == t;
      hide *;
    }

    /** Sets the length of a growable buffer: shrinking clears the bytes given up, growing past the
        capacity moves the contents to a new array. */
    method Resize(b: Buffer, n: nat) returns (r: Buffer)
      requires BufferOk(b, arrays) && nextArray !in arrays
      modifies this`arrays, this`nextArray
      ensures r.length == n && (r.id == b.id || r.id == old(nextArray))
      ensures nextArray == (if r.id == b.id then old(nextArray) else old(nextArray) + 1)
      ensures r.id in arrays && arrays == old(arrays)[r.id := arrays[r.id]]
      ensures n <= |arrays[r.id]| && (r.id == b.id ==> |arrays[r.id]| == |old(arrays)[b.id]|)
      ensures forall i :: 0 <= i < |arrays[r.id]| ==>
                arrays[r.id][i] == if i < n && i < b.length then old(arrays)[b.id][i] else 0
    {
      var s := arrays[b.id];
      if n < b.length {
        r := Buffer(b.id, n);
        arrays := arrays[b.id := s[..n] + seq(b.length - n, _ => 0) + s[b.length..]];
      } else if n > |s| {
        var capacity := if |s| == 0 then n else Capacity(|s|, n);
        r := Buffer(nextArray, n);
        arrays := arrays[nextArray := s[..b.length] + seq(capacity - b.length, _ => 0)];
        nextArray := nextArray + 1;
      } else {
        r := Buffer(b.id, n);
      }
    }

    static function Capacity(old_: nat, n: nat): (c: nat)
      requires n > old_
      ensures c >= n
    {
      if 2 * old_ < n then n else if 2 * old_ < 8 then 8 else 2 * old_
    }

    /** The buffer of a file; a file that is not there gets an empty one. */
    method BufferFor(name: string) returns (b: Buffer)
      requires BuffersOk(files, arrays, nextArray)
      modifies this`files, this`arrays, this`nextArray
      ensures BuffersOk(files, arrays, nextArray)
      ensures files == old(files)[name := b]
      ensures name in old(files) ==> arrays == old(arrays) && nextArray == old(nextArray) && b == old(files)[name]
      ensures name !in old(files) ==>
                b == Buffer(old(nextArray), 0) && arrays == old(arrays)[b.id := []] && nextArray == old(nextArray) + 1
    {
      if name in files {
        b := files[name];
        return;
      }
      b := Buffer(nextArray, 0);
      arrays := arrays[nextArray := []];
      nextArray := nextArray + 1;
      files := files[name := b];
    }

    /** Lays bytes into a buffer, growing it when they reach beyond its end. */
    method Splice(b: Buffer, offset: nat, bytes: seq<Byte>, ghost m: seq<Byte>) returns (r: Buffer)
      requires b.id in arrays && b.length <= |arrays[b.id]| && m == arrays[b.id][..b.length]
      requires forall i :: b.length <= i < |arrays[b.id]| ==> arrays[b.id][i] == 0
      requires nextArray !in arrays
      modifies this`arrays, this`nextArray
      ensures r.id == b.id || r.id == old(nextArray)
      ensures nextArray == (if r.id == b.id then old(nextArray) else old(nextArray) + 1)
      ensures r.id in arrays && arrays == old(arrays)[r.id := arrays[r.id]]
      ensures r.length <= |arrays[r.id]| && (r.id == b.id ==> |arrays[r.id]| == |old(arrays)[b.id]|)
      ensures arrays[r.id][..r.length] == Overwrite(m, Write(offset, bytes))
      ensures forall i :: r.length <= i < |arrays[r.id]| ==> arrays[r.id][i] == 0
    {
      hide Overwrite;
      r := b;
      var s := offset + |bytes|;
      if s > b.length { r := Resize(b, s); }
      var grown := arrays[r.id];
      arrays := arrays[r.id := grown[..offset] + bytes + grown[s..]];
      PutBytes(m, offset, bytes, grown, r.length);
    }

    /** Stores bytes in a file's memory, creating or growing it as needed. */
    method Put(name: string, offset: nat, bytes: seq<Byte>)
      requires BuffersOk(files, arrays, nextArray)
      modifies this`files, this`arrays, this`nextArray
      ensures BuffersOk(files, arrays, nextArray)
      ensures name in files && files == old(files)[name := files[name]]
      ensures Now().Contents(name) == Overwrite(old(Now().Contents(name)), Write(offset, bytes))
      ensures ArraysDrift(old(arrays), arrays, old(OwnArray(files, name)), Now().Contents(name))
      ensures files[name].id in old(arrays) ==> old(OwnArray(files, name)) == Some(files[name].id)
    {
      hide Overwrite, BufferOk, BuffersOk, ArraysDrift, OwnArray, BytesOf;
      var b := BufferFor(name);
      ghost var m, arrays1 := Now().Contents(name), arrays;
      ghost var files1, next1 := files, nextArray;
      FreshIds(files, arrays, nextArray, name);
      b := Splice(b, offset, bytes, m);
      files := files[name := b];
      NewContents(old(files), old(arrays), old(nextArray), files1, arrays1, next1, name, b, arrays[b.id], nextArray);
    }

    /** A write the store can follow: to a temporary file, or starting at or before the end of a file. */
    predicate NotSparse(name: string, offset: nat)
      reads this
    {
      name in temporary || (name in files && offset <= |Now().Contents(name)|)
    }

    /** Writes bytes to a file and queues the write. The view handed to the queue is the buffer as it
        was addressed before the write. */
    method WriteTo(name: string, offset: nat, bytes: seq<Byte>)
      requires Valid()
      modifies this
      ensures Valid() && temporary == old(temporary)
      ensures files.Keys == old(files.Keys) + {name}
      ensures Now().Contents(name) == Overwrite(old(Now().Contents(name)), Write(offset, bytes))
      ensures forall y :: y != name ==> Now().Visible(y) == old(Now().Visible(y))
      ensures index == old(index) && rows == old(rows)
      ensures old(Now().AllInStep() && NotSparse(name, offset)) ==> Now().AllInStep()
    {
      hide StoreOk;
      hide InStep;
      hide ViewOk;
      hide BufferOk;
      hide ArraysDrift;
      hide Queued;
      hide Overwrite;
      hide AllDrifted;
      hide ChangesOf;
      ghost var s, next := Now(), nextArray;
      var w := Write(offset, bytes);
      var view := if name in files then Live(files[name].id, files[name].length) else Frozen([]);
      OwnView(files, arrays, nextArray, name);
      Put(name, offset, bytes);
      ghost var t, m := Now(), Now().Contents(name);
      MemoryChanged(s, t, next, name, m);
      ViewsKeep(s.items, s.files, s.arrays, t.files, t.arrays, name, m);
      if name in temporary {
        if s.AllInStep() {
          HiddenDrift(s, t, name, m);
          OneFileChanged(s, t, name);
        }
        return;
      }
      OwnViewKeeps(s.files, s.arrays, t.files, t.arrays, nextArray, name, m, [w]);
      Submit(WriteItem(name, view, [w]));
      if s.AllInStep() && name in s.files && offset <= |s.Contents(name)| {
        assert s.FileInStep(name);
        WriteQueuedKeeps(s.Stored(name), s.Changes(name), t.Changes(name), Now().Changes(name), s.Contents(name), w,
          Shown(view, arrays));
        OneFileChanged(s, Now(), name);
      }
    }

    /** A truncation the store can follow: of a temporary file, or to no more than the length. */
    predicate NotGrowing(name: string, n: nat)
      reads this
    {
      name in temporary || (name in files && n <= |Now().Contents(name)|)
    }

    /** Sets a file's length and queues the truncation. */
    method TruncateTo(name: string, n: nat)
      requires Valid()
      modifies this
      ensures Valid() && temporary == old(temporary)
      ensures files.Keys == old(files.Keys) + {name}
      ensures Now().Contents(name) == CutOrExtended(old(Now().Contents(name)), n)
      ensures forall y :: y != name ==> Now().Visible(y) == old(Now().Visible(y))
      ensures index == old(index) && rows == old(rows)
      ensures old(Now().AllInStep() && NotGrowing(name, n)) ==> Now().AllInStep()
    {
      hide StoreOk;
      hide InStep;
      hide ViewOk;
      hide BufferOk;
      hide ArraysDrift;
      hide Queued;
      hide CutOrExtended;
      hide AllDrifted;
      hide ChangesOf;
      ghost var s, next := Now(), nextArray;
      SetMemoryLength(name, n);
      ghost var t, m := Now(), Now().Contents(name);
      MemoryChanged(s, t, next, name, m);
      ViewsKeep(s.items, s.files, s.arrays, t.files, t.arrays, name, m);
      if name in temporary {
        if s.AllInStep() {
          HiddenDrift(s, t, name, m);
          OneFileChanged(s, t, name);
        }
        return;
      }
      TruncationHasNoView(name, n, files, arrays);
      Submit(TruncateItem(name, n));
      if s.AllInStep() && name in s.files && n <= |s.Contents(name)| {
        assert s.FileInStep(name);
        TruncateQueuedKeeps(s.Stored(name), s.Changes(name), t.Changes(name), Now().Changes(name), s.Contents(name), n);
        OneFileChanged(s, Now(), name);
      }
    }

    method SetMemoryLength(name: string, n: nat)
      requires BuffersOk(files, arrays, nextArray)
      modifies this`files, this`arrays, this`nextArray
      ensures BuffersOk(files, arrays, nextArray)
      ensures name in files && files == old(files)[name := files[name]]
      ensures Now().Contents(name) == CutOrExtended(old(Now().Contents(name)), n)
      ensures ArraysDrift(old(arrays), arrays, old(OwnArray(files, name)), Now().Contents(name))
      ensures files[name].id in old(arrays) ==> old(OwnArray(files, name)) == Some(files[name].id)
    {
      hide CutOrExtended, BufferOk, BuffersOk, ArraysDrift, OwnArray, BytesOf;
      var b := BufferFor(name);
      ghost var m, arrays1, files1, next1 := Now().Contents(name), arrays, files, nextArray;
      FreshIds(files, arrays, nextArray, name);
      b := Resize(b, n);
      files := files[name := b];
      ResizedBytes(m, n, arrays[b.id]);
      NewContents(old(files), old(arrays), old(nextArray), files1, arrays1, next1, name, b, arrays[b.id], nextArray);
    }

    /** Opens a file; a missing one is created, in the store too unless it is temporary. */
    method OpenFile(name: string, create: bool, deleteOnClose: bool) returns (ok: bool)
      requires Valid()
      modifies this
      ensures Valid()
      ensures ok <==> name in old(files) || create
      ensures files.Keys == if ok then old(files.Keys) + {name} else old(files.Keys)
      ensures temporary == if ok && name !in old(files) && deleteOnClose then old(temporary) + {name}
        else old(temporary)
      ensures forall y :: Now().Contents(y) == old(Now().Contents(y))
      ensures index == old(index) && rows == old(rows)
      ensures old(Now().AllInStep()) ==> Now().AllInStep()
    {
      var existed := name in files;
      if !existed && !create { return false; }
      ok := true;
      if !existed { CreateFile(name, deleteOnClose); }
    }

    method CreateFile(name: string, deleteOnClose: bool)
      requires Valid() && name !in files
      modifies this
      ensures Valid()
      ensures files.Keys == old(files.Keys) + {name}
      ensures temporary == if deleteOnClose then old(temporary) + {name} else old(temporary)
      ensures forall y :: Now().Contents(y) == old(Now().Contents(y))
      ensures index == old(index) && rows == old(rows)
      ensures old(Now().AllInStep()) ==> Now().AllInStep()
    {
      hide StoreOk;
      hide InStep;
      hide BuffersOk;
      hide ViewOk;
      hide ViewsOk;
      hide Queued;
      hide ChangesOf;
      hide AllDrifted;
      ghost var s := Now();
      AddEmptyFile(name);
      ghost var t := Now();
      if deleteOnClose {
        temporary := temporary + {name};
        if s.AllInStep() {
          HiddenDrift(s, Now(), name, []);
          OneFileChanged(s, Now(), name);
        }
      } else {
        CreationHasNoView(name, files, arrays);
        Submit(CreateItem(name));
        if s.AllInStep() {
          assert s.FileInStep(name);
          CreateQueuedKeeps(s.Stored(name), s.Changes(name), t.Changes(name), Now().Changes(name));
          OneFileChanged(s, Now(), name);
        }
      }
    }

    method AddEmptyFile(name: string)
      requires BuffersOk(files, arrays, nextArray) && ViewsOk(Pending(), files, arrays) && name !in files
      modifies this`files, this`arrays, this`nextArray
      ensures BuffersOk(files, arrays, nextArray) && ViewsOk(Pending(), files, arrays)
      ensures files.Keys == old(files.Keys) + {name}
      ensures forall y :: Now().Contents(y) == old(Now().Contents(y))
      ensures old(Now()).SameElsewhere(Now(), name) && Now().Contents(name) == []
      ensures AllDrifted(old(Now().Changes(name)), Now().Changes(name), [])
    {
      hide BufferOk;
      hide ArraysDrift;
      hide ViewOk;
      hide ChangesOf;
      hide AllDrifted;
      ghost var s, next := Now(), nextArray;
      var b := BufferFor(name);
      FreshId(s.files, s.arrays, next);
      EmptyArrayDrift(s.arrays, next);
      MemoryChanged(s, Now(), next, name, []);
      ViewsKeep(s.items, s.files, s.arrays, files, arrays, name, []);
    }

    /** Deletes a file from memory and, unless it was temporary, from the store behind. */
    method DeleteFile(name: string)
      requires Valid()
      modifies this
      ensures Valid()
      ensures files == old(files) - {name} && temporary == old(temporary) - {name}
      ensures forall y :: y != name ==> Now().Visible(y) == old(Now().Visible(y))
      ensures index == old(index) && rows == old(rows)
      ensures old(Now().AllInStep()) ==> Now().AllInStep()
    {
      hide StoreOk;
      hide InStep;
      hide Queued;
      hide ChangesOf;
      hide BuffersOk;
      hide ViewOk;
      hide ViewsOk;
      hide AsChange;
      ghost var s := Now();
      files := files - {name};
      FewerFiles(s.items, s.files, files, arrays);
      FewerBuffers(s.files, files, arrays, nextArray);
      Forgotten(s, Now(), name);
      if name in temporary {
        temporary := temporary - {name};
        if s.AllInStep() { HiddenStays(s, Now(), name); }
      } else {
        QueueDeletion(name, s);
      }
    }

    /** Queues the deletion of a file that is gone from memory. */
    method QueueDeletion(name: string, ghost s: Snapshot)
      requires ViewsOk(Pending(), files, arrays) && name !in files
      requires s.SameElsewhere(Now(), name) && Now().Changes(name) == s.Changes(name)
        && Now().Stored(name) == s.Stored(name)
      modifies this`running, this`queue
      ensures ViewsOk(Pending(), files, arrays)
      ensures s.SameElsewhere(Now(), name)
      ensures s.AllInStep() ==> Now().AllInStep()
    {
      hide Queued;
      hide ViewOk;
      hide ViewsOk;
      hide ChangesOf;
      hide AsChange;
      hide InStep;
      DeletionHasNoView(name, files, arrays);
      ghost var t := Now();
      Submit(DeleteItem(name));
      SameTwice(s, t, Now(), name);
      if s.AllInStep() { DeletedStep(s, Now(), name); }
    }

    /** The block writer of a queued write reads its view when the worker gets to it. */
    method Prepare()
      requires Valid()
      modifies this`running
      ensures Valid()
      ensures forall x :: Now().Changes(x) == old(Now().Changes(x)) && Now().Visible(x) == old(Now().Visible(x))
      ensures old(Now().AllInStep()) ==> Now().AllInStep()
    {
      if running.Some? && running.value.WriteItem? {
        ghost var s := Now();
        var item := running.value;
        running := Some(WriteItem(item.name, Frozen(Shown(item.view, arrays)), item.writes));
        Frozen1(s, Now(), item, running.value);
      }
    }

    method Lookup(name: string) returns (id: Option<int>)
      requires StoreOk(ids, index, rows, nextId)
      modifies this`ids
      ensures StoreOk(ids, index, rows, nextId)
      ensures id == if name in index then Some(index[name]) else None
    {
      if name in ids { return Some(ids[name]); }
      if name !in index { return None; }
      ids := ids[name := index[name]];
      return Some(index[name]);
    }

    /** Carries one item out against the block store; an item that does not apply has no effect. */
    method Execute(item: WorkItem)
      requires StoreOk(ids, index, rows, nextId)
      modifies this`ids, this`index, this`rows, this`nextId
      ensures StoreOk(ids, index, rows, nextId)
      ensures CarriedOut(old(Now().Stored(item.name)), AsChange(item, arrays), Now().Stored(item.name))
      ensures forall y :: y != item.name ==> Now().Stored(y) == old(Now().Stored(y))
    {
      hide CarriedOut;
      hide StoreOk;
      match item {
        case CreateItem(name) => StoreCreate(name);
        case DeleteItem(name) => StoreDelete(name);
        case TruncateItem(name, n) => StoreTruncate(name, n);
        case WriteItem(name, view, writes) => StoreWrite(name, Shown(view, arrays), writes);
      }
    }

    /** Adds an empty file under a new key; the name index admits no second file of the same name. */
    method StoreCreate(name: string)
      requires StoreOk(ids, index, rows, nextId)
      modifies this`ids, this`index, this`rows, this`nextId
      ensures StoreOk(ids, index, rows, nextId)
      ensures CarriedOut(old(Now().Stored(name)), Create, Now().Stored(name))
      ensures forall y :: y != name ==> Now().Stored(y) == old(Now().Stored(y))
    {
      hide StoreOk, CarriedOut, RowOf;
      CreatedRow(ids, index, rows, nextId, name);
      if name !in index {
        index, rows := index[name := nextId], rows[nextId := RawFile(0, map[])];
        ids := ids[name := nextId];
        nextId := nextId + 1;
      }
    }

    /** Removes a file's row, its blocks and its index entry. */
    method StoreDelete(name: string)
      requires StoreOk(ids, index, rows, nextId)
      modifies this`ids, this`index, this`rows
      ensures StoreOk(ids, index, rows, nextId)
      ensures CarriedOut(old(Now().Stored(name)), Delete, Now().Stored(name))
      ensures forall y :: y != name ==> Now().Stored(y) == old(Now().Stored(y))
    {
      hide StoreOk, CarriedOut, RowOf;
      var id := Lookup(name);
      DeletedRow(ids, index, rows, nextId, name);
      if id.Some? {
        ids := ids - {name};
        index := map n | n in index && index[n] != id.value :: index[n];
        rows := rows - {id.value};
      }
    }

    /** Cuts a file: later blocks go, the block of the new end stays as it is. */
    method StoreTruncate(name: string, n: nat)
      requires StoreOk(ids, index, rows, nextId)
      modifies this`ids, this`rows
      ensures StoreOk(ids, index, rows, nextId)
      ensures CarriedOut(old(Now().Stored(name)), Truncate(n), Now().Stored(name))
      ensures forall y :: y != name ==> Now().Stored(y) == old(Now().Stored(y))
    {
      var id := Lookup(name);
      if id.Some? {
        var raw := rows[id.value];
        var kept :=
          if raw.length > n then map b | b in raw.blocks && b <= n / 4096 * 4096 :: raw.blocks[b] else raw.blocks;
        rows := rows[id.value := RawFile(n, kept)];
      }
    }

    /** Replaces the blocks that the writes touch and sets the new length. */
    method StoreWrite(name: string, base: seq<Byte>, writes: seq<Write>)
      requires StoreOk(ids, index, rows, nextId)
      modifies this`ids, this`rows
      ensures StoreOk(ids, index, rows, nextId)
      ensures CarriedOut(old(Now().Stored(name)), WriteFile(base, writes), Now().Stored(name))
      ensures forall y :: y != name ==> Now().Stored(y) == old(Now().Stored(y))
    {
      hide BlocksFor;
      var blocks, length := BuildBlocks(base, writes);
      var id := Lookup(name);
      if id.Some? {
        var raw := rows[id.value];
        rows := rows[id.value := RawFile(length, raw.blocks + blocks)];
      }
    }

    static method BuildBlocks(base: seq<Byte>, writes: seq<Write>) returns (blocks: map<nat, seq<Byte>>, length: nat)
      ensures BlocksFor(base, writes, blocks) && length == NewLength(|base|, writes)
    {
      hide BlocksFor;
      var w := new BlockWriter(base);
      for i := 0 to |writes|
        invariant w.Valid() && w.original == base && w.applied == writes[..i]
      {
        w.AddWrite(writes[i]);
        assert writes[..i + 1] == writes[..i] + [writes[i]];
      }
      assert writes[..|writes|] == writes;
      blocks, length := w.replaced, w.newLength;
    }

    /** The worker finishes the item it is on and takes the next. */
    method Finish()
      requires Valid() && running.Some?
      modifies this
      ensures Valid() && files == old(files) && arrays == old(arrays) && temporary == old(temporary)
      ensures Pending() == old(queue)
      ensures old(Now().AllInStep()) ==> Now().AllInStep()
    {
      hide StoreOk;
      hide InStep;
      hide BuffersOk;
      hide ViewOk;
      hide CarriedOut;
      ghost var s := Now();
      var item := running.value;
      Execute(item);
      running := None;
      assert s.items == [item] + queue;
      ViewsSplit([item], queue, files, arrays);
      if s.AllInStep() { FinishedStep(s, Now(), item); }
      StartNext();
    }

    /** Reads a stored file: a zeroed buffer of its length, then every block copied in. */
    static method ReadFile(raw: RawFile) returns (bytes: seq<Byte>)
      requires raw.Valid()
      ensures bytes == FileBytes(raw)
    {
      hide BlockOf;
      bytes := seq(raw.length, _ => 0);
      var keys := raw.blocks.Keys;
      while keys != {}
        invariant |bytes| == raw.length && keys <= raw.blocks.Keys
        invariant forall p :: 0 <= p < raw.length ==>
                    bytes[p] == if BlockOf(p) in raw.blocks && BlockOf(p) !in keys then RawByte(raw, p) else 0
        decreases keys
      {
        var b :| b in keys;
        var n := if raw.length - b < 4096 then raw.length - b else 4096;
        BlockCopied(raw, b, n, bytes);
        bytes := bytes[..b] + raw.blocks[b][..n] + bytes[b + n..];
        keys := keys - {b};
      }
      forall p | 0 <= p < raw.length ensures bytes[p] == RawByte(raw, p) {
      }
    }

    static lemma BlockCopied(raw: RawFile, b: nat, n: nat, bytes: seq<Byte>)
      requires raw.Valid() && b in raw.blocks && |bytes| == raw.length
      requires n == if raw.length - b < 4096 then raw.length - b else 4096
      ensures b + n <= |bytes| && n <= |raw.blocks[b]|
      ensures forall p :: 0 <= p < raw.length ==>
                (bytes[..b] + raw.blocks[b][..n] + bytes[b + n..])[p]
                  == if BlockOf(p) == b then RawByte(raw, p) else bytes[p]
    {
      forall p | 0 <= p < raw.length
        ensures (bytes[..b] + raw.blocks[b][..n] + bytes[b + n..])[p]
             == if BlockOf(p) == b then RawByte(raw, p) else bytes[p]
      {
        BlockBounds(p);
      }
    }

    /** Starting again from a drained store shows exactly the files that were visible. */
    method Reload() returns (loaded: map<string, seq<Byte>>)
      requires Valid() && Now().AllInStep() && Drained()
      ensures loaded == map x | x in files && x !in temporary :: Now().Contents(x)
    {
      hide InStep;
      loaded := map[];
      var names := index.Keys;
      while names != {}
        invariant names <= index.Keys && loaded.Keys == index.Keys - names
        invariant forall x :: x in loaded ==> loaded[x] == Now().Contents(x)
        decreases names
      {
        var x :| x in names;
        StoredIsValid(x);
        DrainedStoreMatches(x);
        var bytes := ReadFile(rows[index[x]]);
        loaded := loaded[x := bytes];
        names := names - {x};
      }
      forall x ensures x in loaded <==> x in files && x !in temporary {
        DrainedStoreMatches(x);
      }
    }

    lemma StoredIsValid(x: string)
      requires Valid() && Now().AllInStep() && x in index
      ensures rows[index[x]].Valid()
    {
      assert Now().FileInStep(x);
    }
  }

  lemma SameTwice(s: Snapshot, t: Snapshot, u: Snapshot, name: string)
    requires s.SameElsewhere(t, name) && t.SameElsewhere(u, name)
    ensures s.SameElsewhere(u, name)
  {}

  lemma Frozen1(s: Snapshot, t: Snapshot, item: WorkItem, frozen: WorkItem)
    requires s.items != [] && s.items[0] == item && t == s.(items := [frozen] + s.items[1..])
    requires frozen.name == item.name && AsChange(frozen, s.arrays) == AsChange(item, s.arrays)
    ensures forall x :: t.Changes(x) == s.Changes(x)
    ensures s.AllInStep() ==> t.AllInStep()
  {
    hide AsChange, InStep;
    forall x ensures t.Changes(x) == s.Changes(x) {
      hide Snapshot.AllInStep;
      assert s.items == [item] + s.items[1..];
      ChangesConcat([item], s.items[1..], x, s.arrays);
      ChangesConcat([frozen], s.items[1..], x, s.arrays);
      ChangesSnoc([], item, x, s.arrays);
      ChangesSnoc([], frozen, x, s.arrays);
      assert [] + [item] == [item] && [] + [frozen] == [frozen];
    }
    if s.AllInStep() {
      forall x ensures t.FileInStep(x) { assert s.FileInStep(x); }
    }
  }

  lemma FinishedStep(s: Snapshot, t: Snapshot, item: WorkItem)
    requires s.AllInStep() && s.items != [] && s.items[0] == item
    requires t == s.(items := s.items[1..], index := t.index, rows := t.rows)
    requires CarriedOut(s.Stored(item.name), AsChange(item, s.arrays), t.Stored(item.name))
    requires forall y :: y != item.name ==> t.Stored(y) == s.Stored(y)
    ensures t.AllInStep()
  {
    hide InStep, CarriedOut, AsChange, ChangesOf;
    forall x ensures t.FileInStep(x) {
      assert s.FileInStep(x);
      FirstChange(s.items, x, s.arrays);
      if x == item.name {
        assert s.Changes(x) == [AsChange(item, s.arrays)] + t.Changes(x);
        assert s.Changes(x)[1..] == t.Changes(x);
        CarryOutKeeps(s.Stored(x), s.Changes(x), s.Visible(x), t.Stored(x));
      } else {
        assert s.Changes(x) == t.Changes(x);
      }
    }
  }

  lemma FirstChange(items: seq<WorkItem>, x: string, arrays: Arrays)
    requires items != []
    ensures ChangesOf(items, x, arrays)
         == (if items[0].name == x then [AsChange(items[0], arrays)] else []) + ChangesOf(items[1..], x, arrays)
  {
    hide *;
    assert items == [items[0]] + items[1..];
    ChangesConcat([items[0]], items[1..], x, arrays);
    ChangesSnoc([], items[0], x, arrays);
    NoItems(x, arrays);
    assert [] + [items[0]] == [items[0]];
  }

  lemma Forgotten(s: Snapshot, t: Snapshot, name: string)
    requires t == s.(files := s.files - {name})
    ensures s.SameElsewhere(t, name) && t.Changes(name) == s.Changes(name) && t.Stored(name) == s.Stored(name)
  {}

  lemma HiddenStays(s: Snapshot, t: Snapshot, name: string)
    requires s.AllInStep() && name in s.temporary
    requires t == s.(files := s.files - {name}, temporary := s.temporary - {name})
    ensures t.AllInStep()
  {
    hide InStep;
    assert s.FileInStep(name);
    OneFileChanged(s, t, name);
  }

  lemma DeletedStep(s: Snapshot, t: Snapshot, name: string)
    requires s.AllInStep() && s.SameElsewhere(t, name) && t.Stored(name) == s.Stored(name) && t.Visible(name).None?
    requires Queued(s.Changes(name), t.Changes(name), Delete)
    ensures t.AllInStep()
  {
    hide InStep;
    hide Queued;
    assert s.FileInStep(name);
    DeleteQueuedKeeps(s.Stored(name), s.Changes(name), t.Changes(name), s.Visible(name));
    OneFileChanged(s, t, name);
  }

  function CutOrExtended(m: seq<Byte>, n: nat): seq<Byte> {
    if n <= |m| then m[..n] else Extended(m, n)
  }

  lemma TruncationHasNoView(name: string, n: nat, files: map<string, Buffer>, arrays: Arrays)
    ensures ViewOk(TruncateItem(name, n), files, arrays)
  {}

  lemma CreationHasNoView(name: string, files: map<string, Buffer>, arrays: Arrays)
    ensures ViewOk(CreateItem(name), files, arrays)
  {}

  lemma DeletionHasNoView(name: string, files: map<string, Buffer>, arrays: Arrays)
    ensures ViewOk(DeleteItem(name), files, arrays) && AsChange(DeleteItem(name), arrays) == Delete
  {}

  lemma EmptyArrayDrift(arrays: Arrays, id: nat)
    requires id !in arrays
    ensures ArraysDrift(arrays, arrays[id := []], None, [])
  {}

  lemma FewerBuffers(files: map<string, Buffer>, files': map<string, Buffer>, arrays: Arrays, nextArray: nat)
    requires BuffersOk(files, arrays, nextArray)
    requires forall y :: y in files' ==> y in files && files'[y] == files[y]
    ensures BuffersOk(files', arrays, nextArray)
  {}

  lemma ResizedBytes(m: seq<Byte>, n: nat, a: seq<Byte>)
    requires n <= |a| && forall i :: 0 <= i < |a| ==> a[i] == if i < n && i < |m| then m[i] else 0
    ensures a[..n] == CutOrExtended(m, n)
    ensures forall i :: n <= i < |a| ==> a[i] == 0
  {}

  lemma FewerFiles(items: seq<WorkItem>, files: map<string, Buffer>, files': map<string, Buffer>, arrays: Arrays)
    requires ViewsOk(items, files, arrays)
    requires forall y :: y in files' ==> y in files && files'[y] == files[y]
    ensures ViewsOk(items, files', arrays)
  {
    forall j | 0 <= j < |items| ensures ViewOk(items[j], files', arrays) {
      assert ViewOk(items[j], files, arrays);
    }
  }

  lemma TruncateQueuedKeeps(raw: Option<RawFile>, cs: seq<Change>, ds: seq<Change>, es: seq<Change>, m: seq<Byte>,
                            n: nat)
    requires InStep(raw, cs, Some(m)) && n <= |m|
    requires AllDrifted(cs, ds, CutOrExtended(m, n)) && Queued(ds, es, Truncate(n))
    ensures InStep(raw, es, Some(CutOrExtended(m, n)))
  {
    hide InStep;
    hide AllDrifted;
    TruncateKeeps(raw, cs, ds, m, n);
  }

  lemma CreateQueuedKeeps(raw: Option<RawFile>, cs: seq<Change>, ds: seq<Change>, es: seq<Change>)
    requires InStep(raw, cs, None) && AllDrifted(cs, ds, []) && Queued(ds, es, Create)
    ensures InStep(raw, es, Some([]))
  {
    DriftKeepsLengths(LengthOf(raw), cs, ds, []);
    CreateKeeps(raw, ds);
  }

  lemma OwnView(files: map<string, Buffer>, arrays: Arrays, nextArray: nat, name: string)
    requires BuffersOk(files, arrays, nextArray)
    ensures name in files ==> files[name].id in arrays && files[name].length <= |arrays[files[name].id]|
    ensures name in files ==> forall y :: y in files && files[y].id == files[name].id ==> y == name
  {}

  /** After a change of one file's memory, queued views are still views of their own files. */
  lemma ViewsKeep(items: seq<WorkItem>, files: map<string, Buffer>, arrays: Arrays, files': map<string, Buffer>,
                  arrays': Arrays,
                  name: string, m: seq<Byte>)
    requires ViewsOk(items, files, arrays) && ArraysDrift(arrays, arrays', OwnArray(files, name), m)
    requires name in files' && files' == files[name := files'[name]]
    requires files'[name].id in arrays ==> OwnArray(files, name) == Some(files'[name].id)
    ensures ViewsOk(items, files', arrays')
  {
    forall j | 0 <= j < |items| ensures ViewOk(items[j], files', arrays') {
      assert ViewOk(items[j], files, arrays);
    }
  }

  /** The view taken before a change shows old bytes or the file's new bytes. */
  lemma OwnViewKeeps(files: map<string, Buffer>, arrays: Arrays, files': map<string, Buffer>, arrays': Arrays,
                     nextArray': nat,
                     name: string, m: seq<Byte>, ws: seq<Write>)
    requires ArraysDrift(arrays, arrays', OwnArray(files, name), m)
    requires BuffersOk(files', arrays', nextArray')
    requires name in files' && files' == files[name := files'[name]]
    requires name in files ==> files[name].id in arrays && files[name].length <= |arrays[files[name].id]|
    requires name in files ==> forall y :: y in files && files[y].id == files[name].id ==> y == name
    ensures var view := if name in files then Live(files[name].id, files[name].length) else Frozen([]);
            && ViewOk(WriteItem(name, view, ws), files', arrays')
            && Drifted(WriteFile(Shown(view, arrays), []), WriteFile(Shown(view, arrays'), []), m)
  {
    if name in files {
      var id, n := files[name].id, files[name].length;
      assert |arrays'[id]| == |arrays[id]|;
      assert forall p :: 0 <= p < n && p < |m| ==>
        arrays'[id][..n][p] == arrays[id][..n][p] || arrays'[id][..n][p] == m[p];
    }
  }

  lemma FreshId(files: map<string, Buffer>, arrays: Arrays, nextArray: nat)
    requires BuffersOk(files, arrays, nextArray)
    ensures nextArray !in arrays
  {}

  lemma FreshIds(files: map<string, Buffer>, arrays: Arrays, nextArray: nat, name: string)
    requires BuffersOk(files, arrays, nextArray) && name in files
    ensures nextArray !in arrays && BufferOk(files[name], arrays)
    ensures files[name].id in arrays && files[name].length <= |arrays[files[name].id]|
    ensures forall i :: files[name].length <= i < |arrays[files[name].id]| ==> arrays[files[name].id][i] == 0
    ensures BytesOf(files, arrays, name) == arrays[files[name].id][..files[name].length]
  {}

  /** Giving a file new contents, in its own array or in a fresh one. */
  lemma GivenContents(files: map<string, Buffer>, arrays: Arrays, nextArray: nat,
                      name: string, b: Buffer, a: seq<Byte>, nextArray': nat)
    requires BuffersOk(files, arrays, nextArray) && name in files
    requires b.length <= |a| && forall i :: b.length <= i < |a| ==> a[i] == 0
    requires || (b.id == files[name].id && nextArray' == nextArray && |a| == |arrays[b.id]|)
             || (b.id == nextArray && nextArray' == nextArray + 1)
    ensures BuffersOk(files[name := b], arrays[b.id := a], nextArray')
    ensures ArraysDrift(arrays, arrays[b.id := a], OwnArray(files, name), a[..b.length])
    ensures b.id in arrays ==> b.id == files[name].id
  {
    forall x | x in files && x != name ensures BufferOk(files[x], arrays[b.id := a]) {
      assert BufferOk(files[x], arrays);
    }
  }

  /** When the file was missing, its first, empty array does not matter to anyone else. */
  lemma DriftFromStart(files: map<string, Buffer>, arrays: Arrays, nextArray: nat, name: string,
                       arrays1: Arrays, files1: map<string, Buffer>, arrays2: Arrays, m: seq<Byte>)
    requires BuffersOk(files, arrays, nextArray) && name in files1
    requires name in files ==> arrays1 == arrays && files1[name] == files[name]
    requires name !in files ==> arrays1 == arrays[nextArray := []] && files1[name].id == nextArray
    requires ArraysDrift(arrays1, arrays2, OwnArray(files1, name), m)
    ensures ArraysDrift(arrays, arrays2, OwnArray(files, name), m)
  {}

  /** The two together: from the files at the start, through the first array, to the new contents. */
  lemma NewContents(files: map<string, Buffer>, arrays: Arrays, nextArray: nat,
                    files1: map<string, Buffer>, arrays1: Arrays, next1: nat,
                    name: string, b: Buffer, a: seq<Byte>, nextArray': nat)
    requires BuffersOk(files, arrays, nextArray) && BuffersOk(files1, arrays1, next1)
    requires name in files1 && files1 == files[name := files1[name]]
    requires name in files ==> arrays1 == arrays
    requires name in files ==> files1[name] == files[name]
    requires name !in files ==> arrays1 == arrays[nextArray := []] && files1[name] == Buffer(nextArray, 0)
    requires b.length <= |a| && forall i :: b.length <= i < |a| ==> a[i] == 0
    requires || (b.id == files1[name].id && nextArray' == next1 && |a| == |arrays1[b.id]|)
             || (b.id == next1 && nextArray' == next1 + 1)
    ensures BuffersOk(files1[name := b], arrays1[b.id := a], nextArray')
    ensures BytesOf(files1[name := b], arrays1[b.id := a], name) == a[..b.length]
    ensures BytesOf(files, arrays, name) == BytesOf(files1, arrays1, name)
    ensures ArraysDrift(arrays, arrays1[b.id := a], OwnArray(files, name), a[..b.length])
    ensures b.id in arrays ==> OwnArray(files, name) == Some(b.id)
  {
    GivenContents(files1, arrays1, next1, name, b, a, nextArray');
    DriftFromStart(files, arrays, nextArray, name, arrays1, files1, arrays1[b.id := a], a[..b.length]);
    hide ArraysDrift;
  }

  /** Bytes laid into a buffer that has been made long enough. */
  lemma PutBytes(m: seq<Byte>, offset: nat, bytes: seq<Byte>, grown: seq<Byte>, length: nat)
    requires length == Max(|m|, offset + |bytes|) <= |grown|
    requires forall i :: 0 <= i < |grown| ==> grown[i] == if i < |m| then m[i] else 0
    ensures (grown[..offset] + bytes + grown[offset + |bytes|..])[..length] == Overwrite(m, Write(offset, bytes))
  {
    var r, w := Overwrite(m, Write(offset, bytes)), Write(offset, bytes);
    forall p: nat | p < length
      ensures r[p] == if offset <= p < offset + |bytes| then bytes[p - offset] else if p < |m| then m[p] else 0
    {
      OverwriteByte(m, w, p);
    }
  }

  /** What joins the queue joins the running item's successors. */
  lemma HeadFirst(head: seq<WorkItem>, q0: seq<WorkItem>, q: seq<WorkItem>, item: WorkItem, arrays: Arrays)
    requires forall y :: y != item.name ==> ChangesOf(q, y, arrays) == ChangesOf(q0, y, arrays)
    requires Queued(ChangesOf(q0, item.name, arrays), ChangesOf(q, item.name, arrays), AsChange(item, arrays))
    ensures forall y :: y != item.name ==> ChangesOf(head + q, y, arrays) == ChangesOf(head + q0, y, arrays)
    ensures Queued(ChangesOf(head + q0, item.name, arrays), ChangesOf(head + q, item.name, arrays),
      AsChange(item, arrays))
  {
    hide Queued;
    forall y
      ensures ChangesOf(head + q0, y, arrays) == ChangesOf(head, y, arrays) + ChangesOf(q0, y, arrays)
      ensures ChangesOf(head + q, y, arrays) == ChangesOf(head, y, arrays) + ChangesOf(q, y, arrays)
    {
      ChangesConcat(head, q0, y, arrays);
      ChangesConcat(head, q, y, arrays);
    }
    QueuedAfter(ChangesOf(head, item.name, arrays), ChangesOf(q0, item.name, arrays),
                ChangesOf(q, item.name, arrays), AsChange(item, arrays));
  }

  lemma Joined(s: Snapshot, t: Snapshot, item: WorkItem)
    requires t == s.(items := t.items)
    requires forall y :: y != item.name ==> ChangesOf(t.items, y, s.arrays) == ChangesOf(s.items, y, s.arrays)
    ensures s.SameElsewhere(t, item.name)
    ensures t.Visible(item.name) == s.Visible(item.name) && t.Stored(item.name) == s.Stored(item.name)
  {}

  lemma ViewsSplit(head: seq<WorkItem>, q: seq<WorkItem>, files: map<string, Buffer>, arrays: Arrays)
    ensures ViewsOk(head + q, files, arrays) <==> ViewsOk(head, files, arrays) && ViewsOk(q, files, arrays)
  {
    hide ViewOk;
    assert forall j :: 0 <= j < |q| ==> (head + q)[|head| + j] == q[j];
    assert forall j :: 0 <= j < |head| ==> (head + q)[j] == head[j];
  }

  lemma AppendItem(q: seq<WorkItem>, item: WorkItem, arrays: map<nat, seq<Byte>>)
    ensures forall y :: y != item.name ==> ChangesOf(q + [item], y, arrays) == ChangesOf(q, y, arrays)
    ensures ChangesOf(q + [item], item.name, arrays) == ChangesOf(q, item.name, arrays) + [AsChange(item, arrays)]
    ensures !item.DeleteItem? ==>
              Queued(ChangesOf(q, item.name, arrays), ChangesOf(q + [item], item.name, arrays), AsChange(item, arrays))
  {
    forall y
      ensures ChangesOf(q + [item], y, arrays)
           == ChangesOf(q, y, arrays) + if item.name == y then [AsChange(item, arrays)] else []
    {
      ChangesSnoc(q, item, y, arrays);
    }
  }

  /** A queue split around one position. */
  lemma ChangesAround(q: seq<WorkItem>, i: nat, x: string, arrays: map<nat, seq<Byte>>)
    requires i < |q|
    ensures ChangesOf(q, x, arrays) ==
              ChangesOf(q[..i], x, arrays)
              + (if q[i].name == x then [AsChange(q[i], arrays)] else [])
              + ChangesOf(q[i + 1..], x, arrays)
    ensures ChangesOf(q[..i + 1], x, arrays)
         == ChangesOf(q[..i], x, arrays) + if q[i].name == x then [AsChange(q[i], arrays)] else []
  {
    assert q == q[..i + 1] + q[i + 1..] && q[..i + 1] == q[..i] + [q[i]];
    ChangesConcat(q[..i + 1], q[i + 1..], x, arrays);
    ChangesSnoc(q[..i], q[i], x, arrays);
  }

  lemma MergeAt(q: seq<WorkItem>, i: nat, item: WorkItem, merged: WorkItem, arrays: map<nat, seq<Byte>>)
    requires i < |q| && q[i].WriteItem? && item.WriteItem? && q[i].name == item.name && |item.writes| == 1
    requires merged == WriteItem(q[i].name, q[i].view, q[i].writes + item.writes)
    requires forall j :: i < j < |q| ==> q[j].name != item.name
    ensures forall y :: y != item.name ==> ChangesOf(q[i := merged], y, arrays) == ChangesOf(q, y, arrays)
    ensures Queued(ChangesOf(q, item.name, arrays), ChangesOf(q[i := merged], item.name, arrays),
      AsChange(item, arrays))
  {
    hide ChangesOf;
    var q' := q[i := merged];
    assert q'[..i] == q[..i] && q'[i + 1..] == q[i + 1..];
    forall y ensures y != item.name ==> ChangesOf(q', y, arrays) == ChangesOf(q, y, arrays) {
      ChangesAround(q, i, y, arrays);
      ChangesAround(q', i, y, arrays);
    }
    var x := item.name;
    NoChanges(q[i + 1..], x, arrays);
    ChangesAround(q, i, x, arrays);
    ChangesAround(q', i, x, arrays);
    var cs := ChangesOf(q, x, arrays);
    assert cs[..|cs| - 1] == ChangesOf(q[..i], x, arrays);
    assert item.writes == [item.writes[0]];
  }

  lemma AppendView(q: seq<WorkItem>, item: WorkItem, files: map<string, Buffer>, arrays: Arrays)
    requires ViewsOk(q, files, arrays) && ViewOk(item, files, arrays)
    ensures ViewsOk(q + [item], files, arrays)
  {}

  lemma AppendDeletion(q: seq<WorkItem>, item: WorkItem, files: map<string, Buffer>, arrays: Arrays)
    requires ViewsOk(q, files, arrays) && item.DeleteItem?
    ensures ViewsOk(q + [item], files, arrays)
  {}

  lemma ViewsDropped(q: seq<WorkItem>, i: nat, files: map<string, Buffer>, arrays: Arrays)
    requires i < |q| && ViewsOk(q, files, arrays)
    ensures ViewsOk(q[..i] + q[i + 1..], files, arrays)
  {
    hide ViewOk;
    var r := q[..i] + q[i + 1..];
    forall j | 0 <= j < |r| ensures ViewOk(r[j], files, arrays) {
      assert r[j] == if j < i then q[j] else q[j + 1];
    }
  }

  lemma DropItem(q: seq<WorkItem>, i: nat, x: string, files: map<string, Buffer>, arrays: Arrays)
    requires i < |q| && q[i].name == x && ViewsOk(q, files, arrays)
    ensures ViewsOk(q[..i] + q[i + 1..], files, arrays)
    ensures forall y :: y != x ==> ChangesOf(q[..i] + q[i + 1..], y, arrays) == ChangesOf(q, y, arrays)
  {
    ViewsDropped(q, i, files, arrays);
    forall y | y != x ensures ChangesOf(q[..i] + q[i + 1..], y, arrays) == ChangesOf(q, y, arrays) {
      ChangesAround(q, i, y, arrays);
      ChangesConcat(q[..i], q[i + 1..], y, arrays);
    }
  }

  /** The changes of the file in the first k items are a prefix of all its changes. */
  lemma PrefixOfChanges(q: seq<WorkItem>, k: nat, x: string, arrays: map<nat, seq<Byte>>)
    requires k <= |q|
    ensures |ChangesOf(q[..k], x, arrays)| <= |ChangesOf(q, x, arrays)|
    ensures ChangesOf(q[..k], x, arrays) == ChangesOf(q, x, arrays)[..|ChangesOf(q[..k], x, arrays)|]
  {
    assert q == q[..k] + q[k..];
    ChangesConcat(q[..k], q[k..], x, arrays);
  }

  lemma OnlyPrefixLeft(q0: seq<WorkItem>, q: seq<WorkItem>, k: nat, x: string, arrays: map<nat, seq<Byte>>)
    requires k <= |q| && k <= |q0| && q[..k] == q0[..k]
    requires forall j :: k <= j < |q| ==> q[j].name != x
    ensures ChangesOf(q, x, arrays) == ChangesOf(q0[..k], x, arrays)
  {
    assert q == q[..k] + q[k..];
    ChangesConcat(q[..k], q[k..], x, arrays);
    NoChanges(q[k..], x, arrays);
  }

  /** How far a deletion has trimmed the queue it found: the items up to position i are as they
      were, none of its file follows, and other files' changes are untouched. */
  ghost predicate Trimmed(q0: seq<WorkItem>, q: seq<WorkItem>, i: int, item: WorkItem, files: map<string, Buffer>,
                          arrays: Arrays) {
    && -1 <= i < |q| && i < |q0| && q[..i + 1] == q0[..i + 1]
    && (forall j :: i < j < |q| ==> q[j].name != item.name)
    && OthersAsBefore(q0, q, item, files, arrays)
  }

  ghost predicate OthersAsBefore(q0: seq<WorkItem>, q: seq<WorkItem>, item: WorkItem, files: map<string, Buffer>,
                                 arrays: Arrays) {
    && ViewsOk(q, files, arrays)
    && forall y :: y != item.name ==> ChangesOf(q, y, arrays) == ChangesOf(q0, y, arrays)
  }

  lemma NothingTrimmed(q0: seq<WorkItem>, item: WorkItem, files: map<string, Buffer>, arrays: Arrays)
    requires ViewsOk(q0, files, arrays)
    ensures Trimmed(q0, q0, |q0| - 1, item, files, arrays)
  {
    hide ViewsOk, ChangesOf;
  }

  lemma ShorterFront(q0: seq<WorkItem>, q: seq<WorkItem>, i: nat)
    requires i < |q| && i < |q0| && q[..i + 1] == q0[..i + 1]
    ensures q[i] == q0[i] && q[..i] == q0[..i]
  {
    assert q[i] == q[..i + 1][i] && q0[i] == q0[..i + 1][i];
    assert q[..i] == q[..i + 1][..i] && q0[..i] == q0[..i + 1][..i];
  }

  lemma SkipOther(q0: seq<WorkItem>, q: seq<WorkItem>, i: nat, item: WorkItem, files: map<string, Buffer>,
                  arrays: Arrays)
    requires Trimmed(q0, q, i, item, files, arrays) && q[i].name != item.name
    ensures Trimmed(q0, q, i - 1, item, files, arrays)
  {
    hide OthersAsBefore;
    ShorterFront(q0, q, i);
  }

  lemma TrimItem(q0: seq<WorkItem>, q: seq<WorkItem>, i: nat, item: WorkItem, files: map<string, Buffer>,
                 arrays: Arrays)
    requires Trimmed(q0, q, i, item, files, arrays) && q[i].name == item.name
    ensures Trimmed(q0, q[..i] + q[i + 1..], i - 1, item, files, arrays)
  {
    OthersWithout(q0, q, i, item, files, arrays);
    hide OthersAsBefore;
    ShorterFront(q0, q, i);
    var r := q[..i] + q[i + 1..];
    assert r[..i] == q[..i];
    forall j | i - 1 < j < |r| ensures r[j].name != item.name { assert r[j] == q[j + 1]; }
  }

  lemma OthersWithout(q0: seq<WorkItem>, q: seq<WorkItem>, i: nat, item: WorkItem, files: map<string, Buffer>,
                      arrays: Arrays)
    requires OthersAsBefore(q0, q, item, files, arrays) && i < |q| && q[i].name == item.name
    ensures OthersAsBefore(q0, q[..i] + q[i + 1..], item, files, arrays)
  {
    hide ViewsOk, ChangesOf;
    DropItem(q, i, item.name, files, arrays);
  }

  lemma TrimmedToDeletion(q0: seq<WorkItem>, q: seq<WorkItem>, i: nat, item: WorkItem, files: map<string, Buffer>,
                          arrays: Arrays)
    requires Trimmed(q0, q, i, item, files, arrays) && q[i] == item == DeleteItem(item.name)
    ensures OthersAsBefore(q0, q, item, files, arrays)
    ensures Queued(ChangesOf(q0, item.name, arrays), ChangesOf(q, item.name, arrays), AsChange(item, arrays))
  {
    hide OthersAsBefore, Queued, ChangesOf;
    ShorterFront(q0, q, i);
    CutHere(q0, q, i + 1, item.name, arrays);
  }

  lemma TrimmedToCreation(q0: seq<WorkItem>, q: seq<WorkItem>, i: nat, item: WorkItem, files: map<string, Buffer>,
                          arrays: Arrays)
    requires Trimmed(q0, q, i, item, files, arrays) && q[i] == CreateItem(item.name) && item.DeleteItem?
    ensures OthersAsBefore(q0, q[..i] + q[i + 1..], item, files, arrays)
    ensures Queued(ChangesOf(q0, item.name, arrays), ChangesOf(q[..i] + q[i + 1..], item.name, arrays),
      AsChange(item, arrays))
  {
    hide OthersAsBefore, Queued, ChangesOf;
    ShorterFront(q0, q, i);
    TrimItem(q0, q, i, item, files, arrays);
    CutHere(q0, q[..i] + q[i + 1..], i, item.name, arrays);
  }

  lemma TrimmedThenDeleted(q0: seq<WorkItem>, q: seq<WorkItem>, i: int, item: WorkItem, files: map<string, Buffer>,
                           arrays: Arrays)
    requires Trimmed(q0, q, i, item, files, arrays) && item.DeleteItem?
    ensures OthersAsBefore(q0, q + [item], item, files, arrays)
    ensures Queued(ChangesOf(q0, item.name, arrays), ChangesOf(q + [item], item.name, arrays), AsChange(item, arrays))
  {
    hide Queued, ViewsOk, ChangesOf;
    CutAndAppend(q0, q, i + 1, item, arrays);
    AppendDeletion(q, item, files, arrays);
    AppendItem(q, item, arrays);
  }

  lemma CutHere(q0: seq<WorkItem>, q: seq<WorkItem>, k: nat, x: string, arrays: map<nat, seq<Byte>>)
    requires k <= |q| && k <= |q0| && q[..k] == q0[..k]
    requires forall j :: k <= j < |q| ==> q[j].name != x
    requires (0 < k && q0[k - 1] == DeleteItem(x)) || (k < |q0| && q0[k] == CreateItem(x))
    ensures Queued(ChangesOf(q0, x, arrays), ChangesOf(q, x, arrays), Delete)
  {
    OnlyPrefixLeft(q0, q, k, x, arrays);
    PrefixOfChanges(q0, k, x, arrays);
    var cs, n := ChangesOf(q0, x, arrays), |ChangesOf(q0[..k], x, arrays)|;
    if k < |q0| && q0[k] == CreateItem(x) {
      ChangesAround(q0, k, x, arrays);
      assert cs[n].Create?;
    } else {
      ChangesAround(q0, k - 1, x, arrays);
      assert cs[n - 1].Delete?;
    }
    assert CutTo(cs, ChangesOf(q, x, arrays), n);
  }

  lemma CutAndAppend(q0: seq<WorkItem>, q: seq<WorkItem>, k: nat, item: WorkItem, arrays: map<nat, seq<Byte>>)
    requires k <= |q| && k <= |q0| && q[..k] == q0[..k] && item.DeleteItem?
    requires forall j :: k <= j < |q| ==> q[j].name != item.name
    ensures Queued(ChangesOf(q0, item.name, arrays), ChangesOf(q + [item], item.name, arrays), Delete)
  {
    var x := item.name;
    OnlyPrefixLeft(q0, q, k, x, arrays);
    PrefixOfChanges(q0, k, x, arrays);
    ChangesSnoc(q, item, x, arrays);
    assert CutTo(ChangesOf(q0, x, arrays), ChangesOf(q + [item], x, arrays), |ChangesOf(q0[..k], x, arrays)|);
  }
}

/** Open, read, write and close of kernel/fs.c: files are byte sequences that writes splice into, seen through up
    to 256 descriptors that each keep an offset. */
module Files {
  import opened Machine
  import opened Lists
  import opened Vfs

  // A used entry of fd_table with its file object.
  datatype Open = Open(node: nat, offset: nat, flags: bv32, mode: int)

  // The bytes of every node and the descriptor table.
  datatype State = State(files: map<nat, Option<Bytes>>, fds: seq<Option<Open>>)

  const FDS: nat := 256
  const O_CREAT: bv32 := 0x40
  const O_TRUNC: bv32 := 0x200

  predicate Creates(flags: bv32) { flags & O_CREAT != 0 }

  predicate Truncates(flags: bv32) { flags & O_TRUNC != 0 }

  // ssize_t is int32_t.
  function ToSsize(n: nat): int {
    var u := n % 0x1_0000_0000;
    if u < 0x8000_0000 then u else u - 0x1_0000_0000
  }

  function Size(data: Option<Bytes>): nat { if data.None? then 0 else |data.value| }

  // ----- One read, one write -----

  // memfs_read: result and the bytes copied out.
  function ReadAt(data: Option<Bytes>, offset: nat, count: nat): (int, Bytes) {
    if data.None? then (-1, [])
    else if offset >= |data.value| then (0, [])
    else
      var n := if offset + count > |data.value| then |data.value| - offset else count;
      (ToSsize(n), data.value[offset..offset + n])
  }

  // The bytes at offset replaced, the sequence as long as it needs to be.
  function Splice(d: Bytes, offset: nat, bytes: Bytes): Bytes
    requires offset <= |d|
  {
    d[..offset] + bytes + if offset + |bytes| < |d| then d[offset + |bytes|..] else []
  }

  // memfs_write: a file without data stays so when nothing is written.
  function WriteAt(data: Option<Bytes>, offset: nat, bytes: Bytes): Option<Bytes>
    requires offset <= Size(data)
  {
    if data.None? then if bytes == [] then None else Some(bytes) else Some(Splice(data.value, offset, bytes))
  }

  function Advanced(offset: nat, result: int): nat { if result > 0 then offset + result else offset }

  // ----- Steps -----

  ghost predicate Good(st: State) {
    |st.fds| == FDS && forall i {:trigger st.fds[i]} :: 0 <= i < FDS && st.fds[i].Some? ==>
      st.fds[i].value.node in st.files && st.fds[i].value.offset <= Size(st.files[st.fds[i].value.node])
  }

  predicate IsOpen(st: State, fd: int) { 0 <= fd < |st.fds| && st.fds[fd].Some? }

  // The lowest free slot, -1 if there is none.
  function LowestFree(fds: seq<Option<Open>>, i: nat): (fd: int)
    requires i <= |fds|
    ensures fd == -1 ==> forall k :: i <= k < |fds| ==> fds[k].Some?
    ensures fd != -1 ==> i <= fd < |fds| && fds[fd].None? && forall k :: i <= k < fd ==> fds[k].Some?
    decreases |fds| - i
  {
    if i == |fds| then -1 else if fds[i].None? then i else LowestFree(fds, i + 1)
  }

  datatype Op =
    | OpenOp(node: nat, flags: bv32, mode: int)
    | CloseOp(fd: int)
    | ReadOp(fd: int, count: nat)
    | WriteOp(fd: int, bytes: Bytes)

  function AfterOpen(st: State, node: nat, flags: bv32, mode: int): State {
    var fd := LowestFree(st.fds, 0);
    if fd == -1 then st else st.(fds := st.fds[fd := Some(Open(node, 0, flags, mode))])
  }

  function AfterClose(st: State, fd: int): State {
    if IsOpen(st, fd) then st.(fds := st.fds[fd := None]) else st
  }

  function ReadBy(st: State, fd: int, count: nat): (int, Bytes) {
    if IsOpen(st, fd) && st.fds[fd].value.node in st.files
    then ReadAt(st.files[st.fds[fd].value.node], st.fds[fd].value.offset, count)
    else (-1, [])
  }

  function AfterRead(st: State, fd: int, count: nat): State {
    if IsOpen(st, fd) then
      var o := st.fds[fd].value;
      st.(fds := st.fds[fd := Some(o.(offset := Advanced(o.offset, ReadBy(st, fd, count).0)))])
    else st
  }

  function AfterWrite(st: State, fd: int, bytes: Bytes): State
    requires Good(st)
  {
    if IsOpen(st, fd) then
      var o := st.fds[fd].value;
      st.(files := st.files[o.node := WriteAt(st.files[o.node], o.offset, bytes)],
          fds := st.fds[fd := Some(o.(offset := Advanced(o.offset, ToSsize(|bytes|))))])
    else st
  }

  // No descriptor of the node is past its start.
  ghost predicate AtStart(st: State, node: nat) {
    forall i {:trigger st.fds[i]} :: 0 <= i < |st.fds| && st.fds[i].Some? && st.fds[i].value.node == node ==> st.fds[i].value.offset == 0
  }

  // A node that was created has no data; neither has one that was truncated.
  function FilesAfter(files: map<nat, Option<Bytes>>, node: nat, truncated: bool): map<nat, Option<Bytes>> {
    if node != 0 && (node !in files || truncated) then files[node := None] else files
  }

  // Opening names a file that exists or, with O_CREAT, a new one; O_TRUNC only a file that no descriptor has read
  // or written past its start.
  ghost predicate Possible(st: State, op: Op) {
    op.OpenOp? ==>
      op.node != 0 && (op.node in st.files || Creates(op.flags)) && (Truncates(op.flags) ==> AtStart(st, op.node))
  }

  function Do(st: State, op: Op): State
    requires Good(st)
  {
    match op
    case OpenOp(node, flags, mode) =>
      AfterOpen(st.(files := FilesAfter(st.files, node, Truncates(flags))), node, flags, mode)
    case CloseOp(fd) => AfterClose(st, fd)
    case ReadOp(fd, count) => AfterRead(st, fd, count)
    case WriteOp(fd, bytes) => AfterWrite(st, fd, bytes)
  }

  // A count as a 32-bit result: itself below 2 GB, else another number that is the same in 32 bits.
  lemma ToSsizeIs(n: nat)
    ensures -0x8000_0000 <= ToSsize(n) < 0x8000_0000 && (n - ToSsize(n)) % 0x1_0000_0000 == 0
    ensures ToSsize(n) <= n && (ToSsize(n) == n <==> n < 0x8000_0000)
  {
  }

  // The offset moves by what was written exactly when that is less than 2 GB.
  lemma WriteMoves(st: State, fd: int, bytes: Bytes)
    requires Good(st) && IsOpen(st, fd)
    ensures IsOpen(AfterWrite(st, fd, bytes), fd)
    ensures AfterWrite(st, fd, bytes).fds[fd].value.offset == st.fds[fd].value.offset + |bytes| <==> |bytes| < 0x8000_0000
  {
    ToSsizeIs(|bytes|);
  }

  // The offset moves by what was read exactly when that is less than 2 GB.
  lemma ReadMoves(st: State, fd: int, count: nat)
    requires Good(st) && IsOpen(st, fd)
    ensures var n := |ReadBy(st, fd, count).1|;
      && IsOpen(AfterRead(st, fd, count), fd)
      && (AfterRead(st, fd, count).fds[fd].value.offset == st.fds[fd].value.offset + n <==> n < 0x8000_0000)
  {
    ToSsizeIs(|ReadBy(st, fd, count).1|);
  }

  // ----- What each call does, case by case -----

  // Opening a file: the lowest free descriptor, at offset 0; O_TRUNC empties the file; nothing else changes.
  lemma OpenIs(st: State, node: nat, flags: bv32, mode: int, fd: nat)
    requires Good(st) && node != 0 && node in st.files
    requires fd < FDS && st.fds[fd].None? && forall i :: 0 <= i < fd ==> st.fds[i].Some?
    ensures Do(st, OpenOp(node, flags, mode)) ==
      State(if flags & 0x200 != 0 then st.files[node := None] else st.files, st.fds[fd := Some(Open(node, 0, flags, mode))])
  {
  }

  // The first read through it delivers the start of the file, unless it was emptied.
  lemma FirstRead(st: State, node: nat, flags: bv32, mode: int, fd: nat, count: nat)
    requires Good(st) && node != 0 && node in st.files && flags & 0x200 == 0 && st.files[node].Some?
    requires fd < FDS && st.fds[fd].None? && forall i :: 0 <= i < fd ==> st.fds[i].Some?
    ensures var d := st.files[node].value;
      ReadBy(Do(st, OpenOp(node, flags, mode)), fd, count).1 == d[..if count < |d| then count else |d|]
  {
    OpenIs(st, node, flags, mode, fd);
  }

  // Closing frees that descriptor and no other, and changes no file.
  lemma CloseIs(st: State, fd: int)
    ensures !(0 <= fd < |st.fds| && st.fds[fd].Some?) ==> AfterClose(st, fd) == st
    ensures 0 <= fd < |st.fds| && st.fds[fd].Some? ==> AfterClose(st, fd) == State(st.files, st.fds[fd := None])
  {
  }

  // A read delivers the bytes from the offset on, at most count and none past the end; -1 without a descriptor or
  // data. Below 2 GB it reports how many, the offset moves by as many, and nothing else changes.
  lemma ReadIs(st: State, fd: int, count: nat)
    requires Good(st)
    ensures !IsOpen(st, fd) ==> ReadBy(st, fd, count) == (-1, []) && AfterRead(st, fd, count) == st
    ensures IsOpen(st, fd) && st.files[st.fds[fd].value.node] == None ==>
      ReadBy(st, fd, count) == (-1, []) && AfterRead(st, fd, count) == st
    ensures IsOpen(st, fd) && st.files[st.fds[fd].value.node].Some? ==>
      var o, d := st.fds[fd].value, st.files[st.fds[fd].value.node].value; var (r, bytes) := ReadBy(st, fd, count);
      && bytes == d[o.offset..if o.offset + count < |d| then o.offset + count else |d|]
      && (|bytes| < 0x8000_0000 ==>
            r == |bytes| && AfterRead(st, fd, count) == State(st.files, st.fds[fd := Some(o.(offset := o.offset + |bytes|))]))
  {
    if IsOpen(st, fd) {
      Unmoved(st.fds, fd);
      ToSsizeIs(|ReadBy(st, fd, count).1|);
    }
  }

  // r is d with the bytes from offset on replaced, longer where they reach past the end.
  ghost predicate Overwritten(d: Bytes, offset: nat, bytes: Bytes, r: Bytes) {
    && |r| == (if offset + |bytes| > |d| then offset + |bytes| else |d|)
    && forall i :: 0 <= i < |r| ==> r[i] == if offset <= i < offset + |bytes| then bytes[i - offset] else if i < |d| then d[i] else 0
  }

  lemma SpliceIs(d: Bytes, offset: nat, bytes: Bytes)
    requires offset <= |d|
    ensures Overwritten(d, offset, bytes, Splice(d, offset, bytes))
  {
  }

  // A write replaces the bytes at the offset; below 2 GB the offset moves past them; no other descriptor or file
  // changes.
  lemma WriteIs(st: State, fd: int, bytes: Bytes)
    requires Good(st)
    ensures !IsOpen(st, fd) ==> AfterWrite(st, fd, bytes) == st
    ensures IsOpen(st, fd) ==>
      var o, st' := st.fds[fd].value, AfterWrite(st, fd, bytes);
      var before, after := st.files[o.node], st'.files[o.node];
      && (forall n :: n in st.files && n != o.node ==> n in st'.files && st'.files[n] == st.files[n])
      && (before == None && bytes == [] ==> after == None)
      && (before.Some? || bytes != [] ==>
            after.Some? && Overwritten(if before == None then [] else before.value, o.offset, bytes, after.value))
      && (|bytes| < 0x8000_0000 ==> st'.fds == st.fds[fd := Some(o.(offset := o.offset + |bytes|))])
  {
    if IsOpen(st, fd) {
      var o := st.fds[fd].value;
      ToSsizeIs(|bytes|);
      if st.files[o.node].Some? { SpliceIs(st.files[o.node].value, o.offset, bytes); }
    }
  }

  // ----- Offsets stay inside the files -----

  // No step leaves an offset past the end of its file.
  lemma StepGood(st: State, op: Op)
    requires Good(st) && Possible(st, op)
    ensures Good(Do(st, op))
  {
    if op.WriteOp? { WriteGood(st, op.fd, op.bytes); }
  }

  lemma WriteGood(st: State, fd: int, bytes: Bytes)
    requires Good(st)
    ensures Good(AfterWrite(st, fd, bytes))
  {
  }

  lemma OpenGood(st: State, node: nat, flags: bv32, mode: int)
    requires Good(st) && node in st.files
    ensures Good(AfterOpen(st, node, flags, mode))
  {
  }

  // ----- Runs -----

  ghost predicate Legal(st: State, ops: seq<Op>)
    requires Good(st)
    decreases |ops|
  {
    ops == [] || (Possible(st, ops[0]) && (StepGood(st, ops[0]); Legal(Do(st, ops[0]), ops[1..])))
  }

  ghost function Run(st: State, ops: seq<Op>): (r: State)
    requires Good(st) && Legal(st, ops)
    ensures Good(r)
    decreases |ops|
  {
    if ops == [] then st
    else
      StepGood(st, ops[0]);
      Run(Do(st, ops[0]), ops[1..])
  }

  datatype Change = Write(offset: nat, bytes: Bytes) | Truncate

  // What the step does to the bytes of file n.
  function Changed(st: State, op: Op, n: nat): seq<Change> {
    if op.WriteOp? && IsOpen(st, op.fd) && st.fds[op.fd].value.node == n then [Write(st.fds[op.fd].value.offset, op.bytes)]
    else if op.OpenOp? && op.node == n && Truncates(op.flags) then [Truncate]
    else []
  }

  ghost function AllChanges(st: State, ops: seq<Op>, n: nat): seq<Change>
    requires Good(st) && Legal(st, ops)
    decreases |ops|
  {
    if ops == [] then []
    else
      StepGood(st, ops[0]);
      Changed(st, ops[0], n) + AllChanges(Do(st, ops[0]), ops[1..], n)
  }

  ghost predicate Replays(data: Option<Bytes>, changes: seq<Change>, r: Option<Bytes>)
    decreases |changes|
  {
    if changes == [] then r == data
    else
      match changes[0]
      case Write(offset, bytes) => offset <= Size(data) && Replays(WriteAt(data, offset, bytes), changes[1..], r)
      case Truncate => Replays(None, changes[1..], r)
  }

  // A file that is not there yet starts without data.
  function StartOf(st: State, n: nat): Option<Bytes> { if n in st.files then st.files[n] else None }

  // Whatever the interleaving of descriptors, a file of the end, new or old, is the replay of the writes and
  // truncations made to it, in their order and at their offsets, none of which is past the end.
  lemma {:induction false} FileIsReplay(st: State, ops: seq<Op>, n: nat)
    requires Good(st) && Legal(st, ops) && n in Run(st, ops).files
    ensures Replays(StartOf(st, n), AllChanges(st, ops, n), Run(st, ops).files[n])
    decreases |ops|
  {
    if ops != [] {
      StepGood(st, ops[0]);
      var next := Do(st, ops[0]);
      FileIsReplay(next, ops[1..], n);
      StepReplays(st, ops[0], n, AllChanges(next, ops[1..], n), Run(next, ops[1..]).files[n]);
    }
  }

  lemma StepReplays(st: State, op: Op, n: nat, rest: seq<Change>, r: Option<Bytes>)
    requires Good(st) && Possible(st, op) && Replays(StartOf(Do(st, op), n), rest, r)
    ensures Replays(StartOf(st, n), Changed(st, op, n) + rest, r)
  {
    var w := Changed(st, op, n);
    if w == [] { assert w + rest == rest; } else { assert (w + rest)[1..] == rest; }
  }

  // ----- Reading and writing in pieces -----

  function Total(counts: seq<nat>): nat { if counts == [] then 0 else counts[0] + Total(counts[1..]) }

  // The bytes that consecutive reads through one descriptor deliver.
  ghost function ReadAll(st: State, fd: int, counts: seq<nat>): Bytes
    requires Good(st)
    decreases |counts|
  {
    if counts == [] then []
    else
      StepGood(st, ReadOp(fd, counts[0]));
      ReadBy(st, fd, counts[0]).1 + ReadAll(AfterRead(st, fd, counts[0]), fd, counts[1..])
  }

  // Reads of less than 2 GB in a row deliver the file from the offset on, without gap or overlap.
  lemma {:induction false} ReadsAreConsecutive(st: State, fd: int, counts: seq<nat>, d: Bytes, o: nat, total: nat)
    requires Good(st) && IsOpen(st, fd) && st.files[st.fds[fd].value.node] == Some(d) && o == st.fds[fd].value.offset
    requires total == Total(counts) && forall i :: 0 <= i < |counts| ==> counts[i] < 0x8000_0000
    ensures ReadAll(st, fd, counts) == d[o..if o + total <= |d| then o + total else |d|]
    decreases |counts|
  {
    if counts != [] {
      var c, rest := counts[0], Total(counts[1..]);
      var p := if o + c < |d| then o + c else |d|;
      ReadPiece(st, fd, c, d, o, p);
      ReadsAreConsecutive(AfterRead(st, fd, c), fd, counts[1..], d, p, rest);
      SliceJoin(d, o, p, if p + rest <= |d| then p + rest else |d|);
    }
  }

  lemma ReadPiece(st: State, fd: int, c: nat, d: Bytes, o: nat, p: nat)
    requires Good(st) && IsOpen(st, fd) && st.files[st.fds[fd].value.node] == Some(d) && o == st.fds[fd].value.offset
    requires c < 0x8000_0000 && p == if o + c < |d| then o + c else |d|
    ensures ReadBy(st, fd, c).1 == d[o..p]
    ensures var st' := AfterRead(st, fd, c);
      && Good(st') && IsOpen(st', fd) && st'.fds[fd].value.node == st.fds[fd].value.node && st'.fds[fd].value.offset == p
      && st'.files == st.files
  {
    ReadIs(st, fd, c);
    StepGood(st, ReadOp(fd, c));
  }

  lemma SliceJoin(d: Bytes, i: nat, j: nat, k: nat)
    requires i <= j <= k <= |d|
    ensures d[i..j] + d[j..k] == d[i..k]
  {
  }

  function Joined(parts: seq<Bytes>): Bytes { if parts == [] then [] else parts[0] + Joined(parts[1..]) }

  ghost function WriteAll(st: State, fd: int, parts: seq<Bytes>): (r: State)
    requires Good(st)
    ensures Good(r)
    decreases |parts|
  {
    if parts == [] then st
    else
      StepGood(st, WriteOp(fd, parts[0]));
      WriteAll(AfterWrite(st, fd, parts[0]), fd, parts[1..])
  }

  // Writes of less than 2 GB in a row through one descriptor leave what one write of them all would.
  lemma {:induction false} WritesAreConsecutive(st: State, fd: int, parts: seq<Bytes>, n: nat, d: Bytes, o: nat,
                                                all: Bytes)
    requires Good(st) && IsOpen(st, fd) && st.fds[fd].value.node == n && st.files[n] == Some(d)
    requires o == st.fds[fd].value.offset
    requires all == Joined(parts) && forall i :: 0 <= i < |parts| ==> |parts[i]| < 0x8000_0000
    ensures n in WriteAll(st, fd, parts).files && WriteAll(st, fd, parts).files[n] == Some(Splice(d, o, all))
    decreases |parts|
  {
    if parts == [] {
      assert Splice(d, o, []) == d;
    } else {
      var p, rest := parts[0], Joined(parts[1..]);
      ToSsizeIs(|p|);
      StepGood(st, WriteOp(fd, p));
      WritesAreConsecutive(AfterWrite(st, fd, p), fd, parts[1..], n, Splice(d, o, p), o + |p|, rest);
      SpliceTwice(d, o, p, rest);
    }
  }

  lemma SpliceTwice(d: Bytes, o: nat, p: Bytes, q: Bytes)
    requires o <= |d|
    ensures Splice(Splice(d, o, p), o + |p|, q) == Splice(d, o, p + q)
  {
  }

  // The same for a file that has no data yet.
  lemma {:induction false} WritesToNew(st: State, fd: int, parts: seq<Bytes>, n: nat, all: Bytes)
    requires Good(st) && IsOpen(st, fd) && st.fds[fd].value.node == n && st.files[n] == None
    requires all == Joined(parts) && forall i :: 0 <= i < |parts| ==> |parts[i]| < 0x8000_0000
    ensures n in WriteAll(st, fd, parts).files && WriteAll(st, fd, parts).files[n] == if all == [] then None else Some(all)
    decreases |parts|
  {
    if parts != [] {
      var p, rest := parts[0], Joined(parts[1..]);
      ToSsizeIs(|p|);
      StepGood(st, WriteOp(fd, p));
      if p == [] {
        assert p + rest == rest;
        WritesToNew(AfterWrite(st, fd, p), fd, parts[1..], n, rest);
      } else {
        WritesAreConsecutive(AfterWrite(st, fd, p), fd, parts[1..], n, p, |p|, rest);
        assert Splice(p, |p|, rest) == p + rest;
      }
    }
  }

  // ----- The table in memory -----

  ghost function DataOf(mem: Nodes): map<nat, Option<Bytes>> { map n | n in mem :: mem[n].data }

  function WithData(mem: Nodes, n: nat, data: Option<Bytes>): Nodes
    requires n in mem
  {
    mem[n := mem[n].(data := data)]
  }

  lemma WithDataTree(mem: Nodes, kids: Kids, rank: map<nat, nat>, n: nat, m: Nodes)
    requires Tree(mem, kids, rank) && n in mem && m.Keys == mem.Keys && m[n].children == mem[n].children
    requires m[n].next == mem[n].next
    requires forall x :: x in mem && x != n ==> m[x] == mem[x]
    ensures Tree(m, kids, rank)
  {
    forall p | p in kids ensures Chain(m, m[p].children, kids[p]) {
      assert Chain(mem, mem[p].children, kids[p]);
    }
  }

  lemma WithDataIs(mem: Nodes, kids: Kids, rank: map<nat, nat>, n: nat, data: Option<Bytes>)
    requires Tree(mem, kids, rank) && n in mem
    ensures Tree(WithData(mem, n, data), kids, rank) && DataOf(WithData(mem, n, data)) == DataOf(mem)[n := data]
  {
    WithDataTree(mem, kids, rank, n, WithData(mem, n, data));
  }

  // Growing into memory that holds garbage and copying at the offset is a splice: no garbage is left.
  lemma GrownIsSplice(d: Bytes, offset: nat, bytes: Bytes, garbage: Bytes)
    requires offset <= |d| && |garbage| == offset + |bytes| > |d|
    ensures var e := d + garbage[|d|..];
      |e| == offset + |bytes| && e[..offset] + bytes + e[offset + |bytes|..] == Splice(d, offset, bytes)
    ensures d == [] ==> Splice(d, offset, bytes) == bytes
  {
  }

  lemma InPlaceIsSplice(d: Bytes, offset: nat, bytes: Bytes)
    requires offset + |bytes| <= |d|
    ensures d[..offset] + bytes + d[offset + |bytes|..] == Splice(d, offset, bytes)
  {
  }

  class FileTable {
    const tree: NodeTree
    const table: array<Option<Open>>

    ghost function St(): State
      reads this, tree, table
    {
      State(DataOf(tree.nodes), table[..])
    }

    ghost predicate Valid()
      reads this, tree, table
    {
      tree.Valid() && Good(St())
    }

    // fs_init, without the sample files: every slot is free.
    constructor ()
      ensures Valid() && fresh(tree) && fresh(table) && St().fds == seq(FDS, _ => None)
    {
      tree := new NodeTree();
      table := new Option<Open>[FDS](_ => None);
      new;
      assert table[..] == seq(FDS, _ => None);
    }

    // fd_alloc, up to the choice of the slot.
    method FdAlloc() returns (fd: int)
      requires table.Length == FDS
      ensures fd == LowestFree(table[..], 0)
    {
      var i := 0;
      while i < FDS
        invariant 0 <= i <= FDS && LowestFree(table[..], 0) == LowestFree(table[..], i)
      {
        if table[i].None? {
          return i;
        }
        i := i + 1;
      }
      return -1;
    }

    // syscall_close
    method Close(fd: int) returns (r: int)
      requires Valid()
      modifies table
      ensures Valid() && St() == AfterClose(old(St()), fd) && r == if IsOpen(old(St()), fd) then 0 else -1
    {
      StepGood(St(), CloseOp(fd));
      if fd < 0 || fd >= FDS || table[fd].None? {
        return -1;
      }
      table[fd] := None;
      return 0;
    }

    // memfs_read
    method MemRead(node: nat, count: nat, offset: nat) returns (result: int, bytes: Bytes)
      requires node in tree.nodes && offset + count < WORD
      ensures (result, bytes) == ReadAt(tree.nodes[node].data, offset, count)
    {
      if tree.nodes[node].data.None? {
        return -1, [];
      }
      var data := tree.nodes[node].data.value;
      if offset >= |data| {
        return 0, [];
      }
      var toRead := count;
      if offset + toRead > |data| {
        toRead := |data| - offset;
      }
      return ToSsize(toRead), data[offset..offset + toRead];
    }

    // The offset of the file object moves by a positive result.
    method Advance(fd: int, result: int)
      requires table.Length == FDS && 0 <= fd < FDS && table[fd].Some?
      modifies table
      ensures var o := old(table[fd]).value;
        table[..] == old(table[..])[fd := Some(o.(offset := Advanced(o.offset, result)))]
    {
      if result > 0 {
        table[fd] := Some(table[fd].value.(offset := table[fd].value.offset + result));
      } else {
        Unmoved(table[..], fd);
      }
    }

    // syscall_read. The sum of offset and count must fit 64 bits, as the code adds them.
    method Read(fd: int, count: nat) returns (result: int, bytes: Bytes)
      requires Valid() && (IsOpen(St(), fd) ==> St().fds[fd].value.offset + count < WORD)
      modifies table
      ensures Valid() && St() == AfterRead(old(St()), fd, count) && (result, bytes) == ReadBy(old(St()), fd, count)
    {
      StepGood(St(), ReadOp(fd, count));
      if fd < 0 || fd >= FDS || table[fd].None? {
        return -1, [];
      }
      var open := table[fd].value;
      result, bytes := MemRead(open.node, count, open.offset);
      Advance(fd, result);
    }

    // memfs_write, with enough memory; garbage is what new memory holds.
    method MemWrite(node: nat, bytes: Bytes, offset: nat, garbage: bv8) returns (result: int)
      requires tree.Valid() && node in tree.nodes && offset <= Size(tree.nodes[node].data) && offset + |bytes| < WORD
      modifies tree
      ensures tree.Valid() && result == ToSsize(|bytes|) && node in old(tree.nodes)
      ensures DataOf(tree.nodes) == DataOf(old(tree.nodes))[node := WriteAt(old(tree.nodes)[node].data, offset, bytes)]
    {
      var data := tree.nodes[node].data;
      var size := if data.None? then 0 else |data.value|;
      var newSize := offset + |bytes|;
      if newSize > size {
        var newData := seq(newSize, _ => garbage);
        GrownIsSplice(if data.None? then [] else data.value, offset, bytes, newData);
        newData := (if data.None? then [] else data.value) + newData[size..];
        data := Some(newData);
      } else if data.Some? {
        InPlaceIsSplice(data.value, offset, bytes);
      }
      if data.Some? {
        data := Some(data.value[..offset] + bytes + data.value[newSize..]);
      }
      assert data == WriteAt(tree.nodes[node].data, offset, bytes);
      SetData(node, data);
      return ToSsize(|bytes|);
    }

    method SetData(node: nat, data: Option<Bytes>)
      requires tree.Valid() && node in tree.nodes
      modifies tree
      ensures tree.Valid() && DataOf(tree.nodes) == DataOf(old(tree.nodes))[node := data]
      ensures tree.kids == old(tree.kids) && node in tree.nodes && tree.nodes[node].mode == old(tree.nodes[node].mode)
    {
      WithDataIs(tree.nodes, tree.kids, tree.rank, node, data);
      tree.nodes := tree.nodes[node := tree.nodes[node].(data := data)];
    }

    // syscall_write
    method Write(fd: int, bytes: Bytes, garbage: bv8) returns (result: int)
      requires Valid() && (IsOpen(St(), fd) ==> St().fds[fd].value.offset + |bytes| < WORD)
      modifies tree, table
      ensures Valid() && St() == AfterWrite(old(St()), fd, bytes)
      ensures result == if IsOpen(old(St()), fd) then ToSsize(|bytes|) else -1
    {
      ghost var st := St();
      StepGood(st, WriteOp(fd, bytes));
      if fd < 0 || fd >= FDS || table[fd].None? {
        result := -1;
      } else {
        var open := table[fd].value;
        result := MemWrite(open.node, bytes, open.offset, garbage);
        ghost var files := DataOf(tree.nodes);
        Advance(fd, result);
        AfterWriteIs(st, fd, bytes, open, files, table[..]);
      }
    }

    // The node that syscall_open finds or creates, 0 if it does neither.
    method OpenNode(path: string, flags: bv32, mode: int) returns (node: nat)
      requires Valid() && |path| <= PATH_MAX && (forall i :: 0 <= i < |path| ==> path[i] != '\0')
      requires |path| - 1 - LastIndex(path, '/') <= NAME_MAX
      modifies tree
      ensures Valid() && St().fds == old(St()).fds && (node != 0 ==> node in tree.nodes)
      ensures Resolved(old(tree.nodes), old(tree.kids), tree.root, path, flags, mode, node, tree.nodes, tree.kids)
      ensures St().files == FilesAfter(old(St()).files, node, false)
      ensures node != 0 && node !in old(tree.nodes) ==> AtStart(St(), node)
      ensures node != 0 && node !in old(tree.nodes) ==>
        var p, name := CreateIn(old(tree.nodes), old(tree.kids), tree.root, path), path[LastIndex(path, '/') + 1..];
        NewChild(old(tree.nodes), old(tree.kids), tree.nodes, tree.kids, p, node, name, 0x8000 + mode % 0x200)
    {
      node := tree.FsLookup(path);
      if node == 0 && Creates(flags) {
        ghost var mem, kids := tree.nodes, tree.kids;
        node := tree.FsCreate(path, S_IFREG + mode % 0x200);
        if node != 0 {
          CreatedFiles(mem, kids, tree.root, path, S_IFREG + mode % 0x200, node, tree.nodes, tree.kids);
          NewFileGood(old(St()), node);
        }
      }
    }

    // The truncation in syscall_open.
    method Truncate(node: nat)
      requires Valid() && node in tree.nodes && AtStart(St(), node)
      modifies tree
      ensures Valid() && node in tree.nodes && tree.nodes[node].mode == old(tree.nodes[node].mode)
      ensures St() == old(St()).(files := old(St()).files[node := None]) && tree.kids == old(tree.kids)
    {
      SetData(node, None);
      TruncatedGood(old(St()), node);
    }

    // The rest of syscall_open, from the descriptor on.
    method OpenFd(node: nat, flags: bv32, mode: int) returns (fd: int)
      requires Valid() && node in tree.nodes
      modifies table
      ensures Valid() && fd == LowestFree(old(St()).fds, 0) && St() == AfterOpen(old(St()), node, flags, mode)
    {
      OpenGood(St(), node, flags, mode);
      fd := FdAlloc();
      if fd < 0 {
        return -1;
      }
      table[fd] := Some(Open(node, 0, flags, mode));
    }

    // syscall_open from the truncation on, for a file.
    method OpenFile(node: nat, flags: bv32, mode: int) returns (fd: int)
      requires Valid() && node in tree.nodes && IsFile(tree.nodes, node) && (Truncates(flags) ==> AtStart(St(), node))
      modifies tree, table
      ensures Valid() && fd == LowestFree(old(St()).fds, 0) && IsFile(tree.nodes, node) && tree.kids == old(tree.kids)
      ensures St().fds == AfterOpen(old(St()), node, flags, mode).fds
      ensures St().files == FilesAfter(old(St()).files, node, Truncates(flags))
    {
      if Truncates(flags) && tree.nodes[node].data.Some? {
        Truncate(node);
      } else {
        NothingToTruncate(St().files, node);
      }
      fd := OpenFd(node, flags, mode);
    }

    // The body of syscall_open; node is the file found or created, if any.
    method OpenPath(path: string, flags: bv32, mode: int) returns (fd: int, node: nat)
      requires Valid() && |path| <= PATH_MAX && (forall i :: 0 <= i < |path| ==> path[i] != '\0')
      requires |path| - 1 - LastIndex(path, '/') <= NAME_MAX
      requires Truncates(flags) ==> AtStart(St(), Lookup(tree.nodes, tree.kids, tree.root, path))
      modifies tree, table
      ensures Valid() && IsFoundOrNew(old(tree.nodes), old(tree.kids), tree.root, path, flags, node)
      ensures tree.kids == KidsAfter(old(tree.nodes), old(tree.kids), tree.root, path, flags, node)
      ensures Opens(old(St()), St(), node, IsFile(tree.nodes, node), fd, flags, mode)
    {
      ghost var mem, kids, before := tree.nodes, tree.kids, St();
      node := OpenNode(path, flags, mode);
      ResolvedIs(mem, kids, tree.root, path, flags, mode, node, tree.nodes, tree.kids);
      ghost var mid, isFile := St(), IsFile(tree.nodes, node);
      fd := -1;
      if node != 0 && !IsDir(tree.nodes[node].mode) {
        fd := OpenFile(node, flags, mode);
      }
      OpensVia(before, mid, St(), node, isFile, fd, flags, mode);
    }

    // syscall_open, a call without O_TRUNC or on a file that no descriptor has read or written past its start. The
    // new descriptor is the lowest free one, at offset 0 of the file the path leads to or, with O_CREAT (0x40), of a
    // new one; O_TRUNC (0x200) empties that file. No other descriptor or file changes.
    method SyscallOpen(path: string, flags: bv32, mode: int) returns (fd: int, node: nat)
      requires Valid() && |path| <= PATH_MAX && (forall i :: 0 <= i < |path| ==> path[i] != '\0')
      requires |path| - 1 - LastIndex(path, '/') <= NAME_MAX
      requires Truncates(flags) ==> AtStart(St(), Lookup(tree.nodes, tree.kids, tree.root, path))
      modifies tree, table
      ensures Valid() && IsFoundOrNew(old(tree.nodes), old(tree.kids), tree.root, path, flags, node)
      ensures FoundOrMade(Lookup(old(tree.nodes), old(tree.kids), tree.root, path), flags, node, old(St()).files)
      ensures OpenedAs(old(St()), St(), fd, node, IsFile(tree.nodes, node), flags, mode)
      ensures node != 0 && IsFile(tree.nodes, node) ==> St() == Do(old(St()), OpenOp(node, flags, mode))
      ensures tree.kids == KidsAfter(old(tree.nodes), old(tree.kids), tree.root, path, flags, node)
    {
      ghost var mem, kids, before := tree.nodes, tree.kids, St();
      fd, node := OpenPath(path, flags, mode);
      FoundOrMadeIs(mem, kids, tree.root, path, flags, node);
      OpensAs(before, St(), fd, node, IsFile(tree.nodes, node), flags, mode);
    }
  }

  // What the two halves of syscall_open do together.
  ghost predicate Opens(before: State, after: State, node: nat, isFile: bool, fd: int, flags: bv32, mode: int) {
    && |before.fds| == FDS && (isFile && node != 0 ==> Good(before) && after == Do(before, OpenOp(node, flags, mode)))
    && fd == (if isFile && node != 0 then LowestFree(before.fds, 0) else -1)
    && after.fds == (if fd == -1 then before.fds else AfterOpen(before, node, flags, mode).fds)
    && after.files == FilesAfter(before.files, node, Truncates(flags) && isFile)
  }

  lemma OpensVia(before: State, mid: State, after: State, node: nat, isFile: bool, fd: int, flags: bv32, mode: int)
    requires Good(before) && mid == State(FilesAfter(before.files, node, false), before.fds)
    requires if isFile && node != 0 then
      && fd == LowestFree(mid.fds, 0) && after.fds == AfterOpen(mid, node, flags, mode).fds
      && after.files == FilesAfter(mid.files, node, Truncates(flags))
      else fd == -1 && after == mid && (node != 0 ==> !isFile)
    ensures Opens(before, after, node, isFile, fd, flags, mode)
  {
    FilesTwice(before.files, node, Truncates(flags));
  }

  lemma FilesTwice(files: map<nat, Option<Bytes>>, node: nat, truncated: bool)
    ensures FilesAfter(FilesAfter(files, node, false), node, truncated) == FilesAfter(files, node, truncated)
  {
  }

  lemma ResolvedIs(mem: Nodes, kids: Kids, root: nat, path: string, flags: bv32, mode: int, node: nat, m: Nodes, k: Kids)
    requires Sound(mem, kids) && root in mem && Resolved(mem, kids, root, path, flags, mode, node, m, k)
    ensures IsFoundOrNew(mem, kids, root, path, flags, node) && k == KidsAfter(mem, kids, root, path, flags, node)
  {
  }

  // What the path led to; if nothing, and O_CREAT (0x40) is given, possibly a new file.
  ghost predicate FoundOrMade(found: nat, flags: bv32, node: nat, files: map<nat, Option<Bytes>>) {
    && (found != 0 ==> node == found) && (found == 0 && flags & 0x40 == 0 ==> node == 0)
    && (found == 0 && node != 0 ==> node !in files)
  }

  // What a call that found or made the node did: it fails without a node, on a directory and when every descriptor
  // is in use; else the lowest free descriptor is at offset 0 of the node, which O_TRUNC (0x200) has emptied.
  ghost predicate OpenedAs(before: State, after: State, fd: int, node: nat, isFile: bool, flags: bv32, mode: int) {
    && (fd == -1 <==> node == 0 || !isFile || forall i :: 0 <= i < |before.fds| ==> before.fds[i].Some?)
    && (fd == -1 ==> after.fds == before.fds)
    && (fd != -1 ==> Opened(before.fds, after.fds, fd, Open(node, 0, flags, mode)))
    && Emptied(before.files, after.files, node, flags & 0x200 != 0 && isFile)
  }

  lemma OpensAs(before: State, after: State, fd: int, node: nat, isFile: bool, flags: bv32, mode: int)
    requires Opens(before, after, node, isFile, fd, flags, mode)
    ensures OpenedAs(before, after, fd, node, isFile, flags, mode)
  {
    FailsIs(before.fds, node, isFile, fd);
    EmptiedIs(before.files, node, flags & 0x200 != 0 && isFile);
    OpensLowest(before, after, fd, node, flags, mode);
  }

  // A new node, or one that is emptied, has no data; every other file is as before.
  ghost predicate Emptied(before: map<nat, Option<Bytes>>, after: map<nat, Option<Bytes>>, node: nat, empties: bool) {
    && (forall n :: n in before && (n != node || !empties) ==> n in after && after[n] == before[n])
    && (node != 0 && (empties || node !in before) ==> node in after && after[node] == None)
  }

  lemma EmptiedIs(files: map<nat, Option<Bytes>>, node: nat, empties: bool)
    ensures Emptied(files, FilesAfter(files, node, empties), node, empties)
  {
  }

  // Slot fd, the lowest free one, now holds o; all others stay.
  ghost predicate Opened(before: seq<Option<Open>>, after: seq<Option<Open>>, fd: int, o: Open) {
    && |after| == |before| && 0 <= fd < |before| && before[fd].None? && after[fd] == Some(o)
    && (forall i :: 0 <= i < fd ==> before[i].Some?)
    && (forall i :: 0 <= i < |before| && i != fd ==> after[i] == before[i])
  }

  lemma OpensLowest(before: State, after: State, fd: int, node: nat, flags: bv32, mode: int)
    requires fd != -1 ==> fd == LowestFree(before.fds, 0) && after.fds == AfterOpen(before, node, flags, mode).fds
    ensures fd != -1 ==> Opened(before.fds, after.fds, fd, Open(node, 0, flags, mode))
  {
  }

  lemma FoundOrMadeIs(mem: Nodes, kids: Kids, root: nat, path: string, flags: bv32, node: nat)
    requires Sound(mem, kids) && root in mem && IsFoundOrNew(mem, kids, root, path, flags, node)
    ensures FoundOrMade(Lookup(mem, kids, root, path), flags, node, DataOf(mem))
  {
  }

  lemma FailsIs(fds: seq<Option<Open>>, node: nat, isFile: bool, fd: int)
    requires |fds| == FDS && fd == if isFile && node != 0 then LowestFree(fds, 0) else -1
    ensures fd == -1 <==> node == 0 || !isFile || forall i :: 0 <= i < |fds| ==> fds[i].Some?
  {
  }

  lemma CreatedFiles(mem: Nodes, kids: Kids, root: nat, path: string, mode: nat, node: nat, m: Nodes, k: Kids)
    requires Sound(mem, kids) && root in mem && node !in mem && CreatedAt(mem, kids, root, path, mode, node, m, k)
    ensures DataOf(m) == DataOf(mem)[node := None]
  {
  }

  lemma NewFileGood(st: State, node: nat)
    requires Good(st) && node !in st.files
    ensures Good(st.(files := st.files[node := None])) && AtStart(st, node)
  {
  }

  lemma TruncatedGood(st: State, node: nat)
    requires Good(st) && AtStart(st, node) && node in st.files
    ensures Good(st.(files := st.files[node := None]))
  {
  }

  lemma NothingToTruncate(files: map<nat, Option<Bytes>>, node: nat)
    requires node in files
    ensures files[node] == None ==> files[node := None] == files
  {
  }

  predicate IsFile(mem: Nodes, node: nat) { node in mem && !IsDir(mem[node].mode) }

  // The node is what the path leads to; if nothing, and the flags ask for it, what fs_create makes.
  ghost predicate Resolved(mem: Nodes, kids: Kids, root: nat, path: string, flags: bv32, mode: int, node: nat,
                           m: Nodes, k: Kids)
    requires Sound(mem, kids) && root in mem
  {
    var found := Lookup(mem, kids, root, path);
    if found != 0 || !Creates(flags) || CreateIn(mem, kids, root, path) == 0 then node == found && m == mem && k == kids
    else node !in mem && node != 0 && CreatedAt(mem, kids, root, path, S_IFREG + mode % 0x200, node, m, k)
  }

  ghost predicate IsFoundOrNew(mem: Nodes, kids: Kids, root: nat, path: string, flags: bv32, node: nat)
    requires Sound(mem, kids) && root in mem
  {
    var found := Lookup(mem, kids, root, path);
    if found != 0 || !Creates(flags) || CreateIn(mem, kids, root, path) == 0 then node == found else node !in mem && node != 0
  }

  ghost function KidsAfter(mem: Nodes, kids: Kids, root: nat, path: string, flags: bv32, node: nat): Kids
    requires Sound(mem, kids) && root in mem
  {
    var p := CreateIn(mem, kids, root, path);
    if Lookup(mem, kids, root, path) != 0 || !Creates(flags) || p == 0 || p !in kids then kids else AddedKids(kids, p, node)
  }

  lemma AfterWriteIs(st: State, fd: int, bytes: Bytes, o: Open, files: map<nat, Option<Bytes>>, fds: seq<Option<Open>>)
    requires Good(st) && IsOpen(st, fd) && o == st.fds[fd].value
    requires files == st.files[o.node := WriteAt(st.files[o.node], o.offset, bytes)]
    requires fds == st.fds[fd := Some(o.(offset := Advanced(o.offset, ToSsize(|bytes|))))]
    ensures AfterWrite(st, fd, bytes) == State(files, fds)
  {
  }

  lemma Unmoved(fds: seq<Option<Open>>, fd: nat)
    requires fd < |fds| && fds[fd].Some?
    ensures fds[fd := Some(fds[fd].value.(offset := fds[fd].value.offset))] == fds
  {
  }
}

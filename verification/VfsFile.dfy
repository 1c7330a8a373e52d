/**
 The in-memory file of source/component/fs/vsf_fs.c: a heap buffer, a size and a cursor, refining a byte sequence with
 a position.
 */
module VfsFile {
  import opened Basics

  type Byte = bv8

  /** The abstract file. */
  datatype File = File(bytes: seq<Byte>, pos: nat)

  datatype Whence = Set | Cur | End

  const U64: int := 0x1_0000_0000_0000_0000
  const I63: int := 0x8000_0000_0000_0000

  /** The heap counts in uint_fast32_t. */
  const HEAP_MAX: nat := 0x1_0000_0000

  /** The cursor is inside the file. Not every operation keeps it there: see `StepExact`. */
  ghost predicate Valid(f: File) {
    f.pos <= |f.bytes|
  }

  function Min(a: nat, b: nat): nat {
    if a < b then a else b
  }

  function Zeros(n: nat): seq<Byte> {
    seq(n, _ => 0)
  }

  // ---------- what the operations mean ----------

  /** Where a read ends: a cursor outside the file reads nothing. */
  function ReadEnd(f: File, n: nat): (r: nat)
    ensures f.pos <= r
  {
    if f.pos <= |f.bytes| then Min(f.pos + n, |f.bytes|) else f.pos
  }

  function ReadBytes(f: File, n: nat): seq<Byte> {
    if f.pos <= |f.bytes| then f.bytes[f.pos..ReadEnd(f, n)] else []
  }

  function AfterRead(f: File, n: nat): File {
    f.(pos := ReadEnd(f, n))
  }

  /** vsf_heap_realloc gives a block unless the size is 0 or the heap is full. */
  predicate Allocates(n: nat, full: bool) {
    n > 0 && !full
  }

  /** The old bytes, then whatever the memory holds. */
  function Resized(bytes: seq<Byte>, n: nat, junk: seq<Byte>): (r: seq<Byte>)
    requires |junk| >= n
    ensures |r| == n
  {
    if n <= |bytes| then bytes[..n] else bytes + junk[|bytes|..n]
  }

  /**
   Overwrite from the cursor on, growing the file if need be, and leave the cursor behind the data. If the cursor is
   outside the file, the gap is filled by whatever the memory holds.
   */
  function AfterWrite(f: File, data: seq<Byte>, junk: seq<Byte>): File
    requires |junk| >= f.pos + |data|
  {
    var bytes := if f.pos + |data| > |f.bytes| then Resized(f.bytes, f.pos + |data|, junk) else f.bytes;
    File(bytes[..f.pos] + data + bytes[f.pos + |data|..], f.pos + |data|)
  }

  /** The heap is full: the block is gone, and the cursor stays. */
  function Lost(f: File): File {
    File([], f.pos)
  }

  predicate WriteFails(f: File, data: seq<Byte>, full: bool) {
    f.pos + |data| > |f.bytes| && full
  }

  /** Cut or zero-fill; the cursor is pulled back to the end if it lay beyond it. */
  function AfterSetSize(f: File, n: nat): File {
    File(if n <= |f.bytes| then f.bytes[..n] else f.bytes + Zeros(n - |f.bytes|), Min(f.pos, n))
  }

  /** Size 0 takes the same way as a full heap. */
  function SetSizeResult(f: File, n: nat, full: bool): (File, Err) {
    if Allocates(n, full) then (AfterSetSize(f, n), Ok) else (Lost(f), NotEnoughResources)
  }

  function Base(f: File, whence: Whence): nat {
    match whence
    case Set => 0
    case Cur => f.pos
    case End => |f.bytes|
  }

  function AfterSeek(f: File, offset: int, whence: Whence): (File, Err) {
    var target := Base(f, whence) + offset;
    if 0 <= target <= |f.bytes| then (f.(pos := target), Ok) else (f, InvalidParameter)
  }

  // ---------- seeking ----------

  /** uint64_t arithmetic. */
  function Wrap(x: int): nat {
    x % U64
  }

  /** vk_file_seek with its unsigned arithmetic, then __vk_file_setpos. */
  function SeekCode(f: File, offset: int, whence: Whence): (File, Err)
    requires Int64(offset) && (whence == Set ==> offset >= 0)
  {
    var from := Base(f, whence);
    if whence != Set && offset < 0 && from < Wrap(0 - Wrap(offset)) then (f, InvalidParameter)
    else
      var pos := Wrap(from + Wrap(offset));
      if pos > |f.bytes| then (f, InvalidParameter) else (f.(pos := pos), Ok)
  }

  /**
   Seek accepts exactly the targets inside the file, unless the target is 2^64 or more and the unsigned sum wraps
   around to a position inside the file; with the cursor inside the file, it then always does.
   */
  lemma SeekExact(f: File, offset: int, whence: Whence)
    requires f.pos < U64 && |f.bytes| < U64 && Int64(offset) && (whence == Set ==> offset >= 0)
    ensures SeekCode(f, offset, whence) == AfterSeek(f, offset, whence)
       <==> !(U64 <= Base(f, whence) + offset <= U64 + |f.bytes|)
    ensures Valid(f) ==>
      (SeekCode(f, offset, whence) == AfterSeek(f, offset, whence) <==> Base(f, whence) + offset < U64)
  {
    var from := Base(f, whence);
    if offset < 0 {
      assert Wrap(offset) == offset + U64;
      assert Wrap(0 - Wrap(offset)) == -offset;
      if from + offset >= 0 { assert Wrap(from + Wrap(offset)) == from + offset; }
    } else if from + offset < U64 {
      assert Wrap(offset) == offset && Wrap(from + offset) == from + offset;
    } else {
      assert Wrap(offset) == offset && Wrap(from + offset) == from + offset - U64;
    }
  }

  /** So no offset wraps around in a file of up to 2^63 bytes, and 2^63 is the largest such size. */
  lemma NoWrapUpTo(size: nat)
    requires size < U64
    ensures size <= I63
       <==> forall f, offset, whence :: Valid(f) && |f.bytes| == size && Int64(offset) ==> Reaches(f, offset, whence)
  {
    if size > I63 {
      var f := File(Zeros(size), size);
      assert Valid(f) && |f.bytes| == size && Int64(I63 - 1) && !Reaches(f, I63 - 1, Cur);
    }
  }

  predicate Int64(offset: int) { -I63 <= offset < I63 }

  predicate Reaches(f: File, offset: int, whence: Whence) { Base(f, whence) + offset < U64 }

  // ---------- the code ----------

  class MemFile {
    /** f.param: the heap block, as long as the file; none when the file is empty. */
    var param: seq<Byte>
    var size: nat
    var pos: nat

    ghost predicate Consistent()
      reads this
    {
      |param| == size
    }

    ghost function Abs(): File
      reads this
    {
      File(param, pos)
    }

    /** A newly created file: zeroed, no block. */
    constructor ()
      ensures Consistent() && Abs() == File([], 0)
    {
      param, size, pos := [], 0, 0;
    }

    /** vsf_heap_realloc: NULL for size 0 and when the heap is full. */
    method Realloc(n: nat, junk: seq<Byte>, full: bool) returns (ok: bool)
      requires n < HEAP_MAX && |junk| >= n
      modifies this`param
      ensures ok <==> Allocates(n, full)
      ensures param == if ok then Resized(old(param), n, junk) else []
    {
      if n == 0 || full {
        param := [];
        return false;
      }
      param := if n <= |param| then param[..n] else param + junk[|param|..n];
      return true;
    }

    /** __vk_file_read over __vk_vfs_read, for requests a 32-bit int can count. */
    method Read(n: nat) returns (data: seq<Byte>)
      requires Consistent() && n < 0x8000_0000
      modifies this`pos
      ensures Consistent() && data == ReadBytes(old(Abs()), n) && Abs() == AfterRead(old(Abs()), n)
      ensures |data| == if old(pos) >= size then 0 else if n < size - old(pos) then n else size - old(pos)
      ensures pos == old(pos) + |data| && forall i :: 0 <= i < |data| ==> data[i] == param[old(pos) + i]
    {
      var rsize := 0;
      data := [];
      if pos < size {
        rsize := Min(n, size - pos);
        data := param[pos..pos + rsize];
      }
      if rsize > 0 {
        pos := pos + rsize;
      }
    }

    /** __vk_file_write over __vk_vfs_write. */
    method Write(buff: seq<Byte>, junk: seq<Byte>, full: bool) returns (err: Err, wsize: nat)
      requires Consistent() && |buff| < 0x8000_0000 && |junk| >= pos + |buff| && pos + |buff| < U64
      requires pos + |buff| > size ==> pos + |buff| < HEAP_MAX
      modifies this
      ensures Consistent() && (err == Ok <==> !WriteFails(old(Abs()), buff, full))
      ensures err == Ok ==> wsize == |buff| && Abs() == AfterWrite(old(Abs()), buff, junk)
      ensures err != Ok ==> err == NotEnoughResources && Abs() == Lost(old(Abs()))
      ensures err != Ok <==> full && old(pos) + |buff| > old(size)
      ensures err != Ok ==> size == 0 && pos == old(pos)
      ensures err == Ok ==> pos == old(pos) + |buff| && size == if pos > old(size) then pos else old(size)
      ensures err == Ok ==> forall i :: 0 <= i < |buff| ==> param[old(pos) + i] == buff[i]
      ensures err == Ok ==> forall i :: 0 <= i < old(size) && !(old(pos) <= i < pos) ==> param[i] == old(param)[i]
    {
      wsize := 0;
      if pos + |buff| > size {
        size := pos + |buff|;
        var ok := Realloc(size, junk, full);
        if !ok {
          size := 0;
          return NotEnoughResources, 0;
        }
      }
      wsize := Fill(buff);
      err := Ok;
    }

    /** The rest of __vk_vfs_write and __vk_file_write, the block being large enough. */
    method Fill(buff: seq<Byte>) returns (wsize: nat)
      requires Consistent() && pos + |buff| <= size
      modifies this`param, this`pos
      ensures Consistent() && wsize == |buff| && pos == old(pos) + |buff|
      ensures param == old(param)[..old(pos)] + buff + old(param)[old(pos) + |buff|..]
    {
      wsize := 0;
      if pos < size {
        wsize := Min(|buff|, size - pos);
        param := param[..pos] + buff[..wsize] + param[pos + wsize..];
      }
      assert buff[..wsize] == buff;
      if wsize > 0 {
        pos := pos + wsize;
      }
    }

    /** __vk_file_setsize over __vk_vfs_setsize: a failure leaves the cursor where it was. */
    method SetSize(n: nat, junk: seq<Byte>, full: bool) returns (err: Err)
      requires Consistent() && n < HEAP_MAX && |junk| >= n
      modifies this
      ensures Consistent() && (Abs(), err) == SetSizeResult(old(Abs()), n, full)
      ensures err == Ok <==> n > 0 && !full
      ensures err == Ok ==> size == n && pos == if old(pos) > n then n else old(pos)
      ensures err == Ok ==> forall i :: 0 <= i < n ==> param[i] == if i < old(size) then old(param)[i] else 0
      ensures err != Ok ==> size == 0 && pos == old(pos)
    {
      var ok := Realloc(n, junk, full);
      if !ok {
        size := 0;
        return NotEnoughResources;
      }
      if n > size {
        param := param[..size] + Zeros(n - size);
      }
      size := n;
      if pos > size {
        pos := size;
      }
      return Ok;
    }

    /** vk_file_seek */
    method Seek(offset: int, whence: Whence) returns (err: Err)
      requires Consistent() && size < U64 && pos < U64 && Int64(offset) && (whence == Set ==> offset >= 0)
      modifies this`pos
      ensures Consistent() && (Abs(), err) == SeekCode(old(Abs()), offset, whence)
      ensures (Abs(), err) == AfterSeek(old(Abs()), offset, whence)
         <==> !(U64 <= Base(old(Abs()), whence) + offset <= U64 + size)
      ensures whence == Set ==> (err == Ok <==> offset <= size) && (err == Ok ==> pos == offset)
      ensures whence == End && size + offset < U64 ==>
        (err == Ok <==> 0 <= size + offset <= size) && (err == Ok ==> pos == size + offset)
      ensures whence == Cur && old(pos) + offset < U64 ==>
        (err == Ok <==> 0 <= old(pos) + offset <= size) && (err == Ok ==> pos == old(pos) + offset)
      ensures err != Ok ==> err == InvalidParameter && pos == old(pos)
    {
      SeekExact(Abs(), offset, whence);
      var target := match whence case Set => 0 case Cur => pos case End => size;
      if whence != Set && offset < 0 && target < Wrap(0 - Wrap(offset)) {
        return InvalidParameter;
      }
      target := Wrap(target + Wrap(offset));
      if target > size {
        return InvalidParameter;
      }
      if target != pos {
        pos := target;
      }
      return Ok;
    }
  }

  // ---------- where the cursor can be ----------

  /** `junk` and `full` are what the heap does. */
  datatype Op =
    | ReadOp(n: nat)
    | WriteOp(data: seq<Byte>, junk: seq<Byte>, full: bool)
    | SeekOp(offset: int, whence: Whence)
    | SetSizeOp(n: nat, full: bool)

  predicate Enabled(f: File, op: Op) {
    op.WriteOp? ==> |op.junk| >= f.pos + |op.data|
  }

  function Apply(f: File, op: Op): (r: File)
    requires Enabled(f, op)
  {
    match op
    case ReadOp(n) => AfterRead(f, n)
    case WriteOp(data, junk, full) => if WriteFails(f, data, full) then Lost(f) else AfterWrite(f, data, junk)
    case SeekOp(offset, whence) => AfterSeek(f, offset, whence).0
    case SetSizeOp(n, full) => SetSizeResult(f, n, full).0
  }

  /** The operation throws the contents away under a cursor that is not at the start. */
  predicate Strands(f: File, op: Op) {
    && f.pos > 0
    && match op
       case SetSizeOp(n, full) => n == 0 || full
       case WriteOp(data, _, full) => WriteFails(f, data, full)
       case _ => false
  }

  /** With the cursor inside the file, an operation leaves it inside exactly when it does not strand it. */
  lemma StepExact(f: File, op: Op)
    requires Valid(f) && Enabled(f, op)
    ensures Valid(Apply(f, op)) <==> !Strands(f, op)
  {
  }

  /** A size change leaves the cursor inside exactly when it succeeds or the cursor was at the start. */
  lemma SetSizeExact(f: File, n: nat)
    ensures Valid(SetSizeResult(f, n, false).0) <==> n > 0 || f.pos == 0
    ensures SetSizeResult(f, n, false).1 == Ok <==> n > 0
  {
  }

  ghost predicate IsRun(states: seq<File>, ops: seq<Op>) {
    && |states| == |ops| + 1
    && forall i :: 0 <= i < |ops| ==> NextAt(states, ops, i)
  }

  ghost predicate NextAt(states: seq<File>, ops: seq<Op>, i: nat)
    requires i < |ops| < |states|
  {
    Enabled(states[i], ops[i]) && states[i + 1] == Apply(states[i], ops[i])
  }

  ghost predicate StrandsAt(states: seq<File>, ops: seq<Op>, i: nat)
    requires |states| == |ops| + 1 && i < |ops|
  {
    Strands(states[i], ops[i])
  }

  /** Over every run: the cursor is inside the file in all states exactly if it starts there and no step strands it. */
  lemma {:induction false} CursorInside(states: seq<File>, ops: seq<Op>, n: nat)
    requires IsRun(states, ops) && n <= |ops|
    ensures (forall i :: 0 <= i <= n ==> Valid(states[i]))
       <==> Valid(states[0]) && forall i :: 0 <= i < n ==> !StrandsAt(states, ops, i)
  {
    if n > 0 {
      CursorInside(states, ops, n - 1);
      assert NextAt(states, ops, n - 1);
      if Valid(states[n - 1]) { StepExact(states[n - 1], ops[n - 1]); }
      assert StrandsAt(states, ops, n - 1) == Strands(states[n - 1], ops[n - 1]);
      if forall i :: 0 <= i <= n ==> Valid(states[i]) {
        assert forall i :: 0 <= i <= n - 1 ==> Valid(states[i]);
        assert Valid(states[n - 1]) && Valid(states[n]);
      }
    }
  }

  /**
   The failing case: any file with the cursor past the start, cut to size 0. No allocation fails, the call reports an
   error, the cursor is left outside, and the next write brings uninitialised bytes into the file.
   */
  lemma TruncateExposes(f: File, data: seq<Byte>, junk: seq<Byte>)
    requires Valid(f) && f.pos > 0 && |junk| >= f.pos + |data|
    ensures var (r, err) := SetSizeResult(f, 0, false);
      && err == NotEnoughResources && !Valid(r)
      && AfterWrite(r, data, junk).bytes == junk[..f.pos] + data
  {
    var r := SetSizeResult(f, 0, false).0;
    var bytes := Resized(r.bytes, f.pos + |data|, junk);
    assert bytes == junk[..f.pos + |data|];
    assert bytes[..f.pos] == junk[..f.pos];
    if |data| == 0 {
      assert AfterWrite(r, data, junk).bytes == junk[..f.pos] + data;
    }
  }

  // ---------- reading back ----------

  /** Write, seek back, read: the written bytes come back, and every other byte is as before. */
  lemma WriteSeekRead(f: File, data: seq<Byte>, junk: seq<Byte>)
    requires Valid(f) && |junk| >= f.pos + |data|
    ensures var w := AfterWrite(f, data, junk);
      var (s, err) := AfterSeek(w, -|data|, Cur);
      && err == Ok && s.pos == f.pos && s.bytes == w.bytes
      && ReadBytes(s, |data|) == data && AfterRead(s, |data|) == w
      && |w.bytes| == (if f.pos + |data| > |f.bytes| then f.pos + |data| else |f.bytes|)
      && forall i :: 0 <= i < |w.bytes| && !(f.pos <= i < f.pos + |data|) ==>
           i < |f.bytes| && w.bytes[i] == f.bytes[i]
  {
    var w := AfterWrite(f, data, junk);
    assert w.bytes[f.pos..f.pos + |data|] == data;
  }

  /** Growing a file appends zeros; shrinking it back gives the same file, and succeeds exactly if that is not empty. */
  lemma GrowThenShrink(f: File, n: nat)
    requires Valid(f) && n >= |f.bytes| && n > 0
    ensures var (g, err) := SetSizeResult(f, n, false);
      && err == Ok && |g.bytes| == n && g.pos == f.pos
      && g.bytes[..|f.bytes|] == f.bytes && (forall i :: |f.bytes| <= i < n ==> g.bytes[i] == 0)
      && SetSizeResult(g, |f.bytes|, false).0 == f
      && (SetSizeResult(g, |f.bytes|, false).1 == Ok <==> f.bytes != [])
  {
    var g := SetSizeResult(f, n, false).0;
    assert g.bytes[..|f.bytes|] == f.bytes;
  }

  function Sum(ns: seq<nat>): nat {
    if ns == [] then 0 else ns[0] + Sum(ns[1..])
  }

  /** The bytes returned by a run of reads, put together, and the file after it. */
  function ReadAll(f: File, ns: seq<nat>): seq<Byte>
    decreases |ns|
  {
    if ns == [] then [] else ReadBytes(f, ns[0]) + ReadAll(AfterRead(f, ns[0]), ns[1..])
  }

  function AfterReads(f: File, ns: seq<nat>): File
    decreases |ns|
  {
    if ns == [] then f else AfterReads(AfterRead(f, ns[0]), ns[1..])
  }

  /** Two reads are one. */
  lemma ReadTwice(f: File, a: nat, b: nat)
    ensures ReadBytes(f, a) + ReadBytes(AfterRead(f, a), b) == ReadBytes(f, a + b)
    ensures AfterRead(AfterRead(f, a), b) == AfterRead(f, a + b)
  {
    if Valid(f) {
      var m, e := ReadEnd(f, a), ReadEnd(f, a + b);
      assert f.bytes[f.pos..m] + f.bytes[m..e] == f.bytes[f.pos..e];
    }
  }

  /** Reading in pieces is reading in one go. */
  lemma {:induction false} ReadsConcatenate(f: File, ns: seq<nat>)
    ensures ReadAll(f, ns) == ReadBytes(f, Sum(ns)) && AfterReads(f, ns) == AfterRead(f, Sum(ns))
    decreases |ns|
  {
    if ns != [] {
      ReadsConcatenate(AfterRead(f, ns[0]), ns[1..]);
      ReadTwice(f, ns[0], Sum(ns[1..]));
    }
  }

  function Flatten(pieces: seq<seq<Byte>>): seq<Byte> {
    if pieces == [] then [] else pieces[0] + Flatten(pieces[1..])
  }

  /** A run of writes, with the heap block that each of them gets. */
  function AfterWrites(f: File, pieces: seq<seq<Byte>>, junk: seq<Byte>): File
    requires |junk| >= f.pos + |Flatten(pieces)|
    decreases |pieces|
  {
    if pieces == [] then f else AfterWrites(AfterWrite(f, pieces[0], junk), pieces[1..], junk)
  }

  /** What is left behind position `n`. */
  function Behind(bytes: seq<Byte>, n: nat): seq<Byte> {
    if n <= |bytes| then bytes[n..] else []
  }

  /** A file with its cursor behind `head`, and what `bytes` holds from there on. */
  function Split(head: seq<Byte>, bytes: seq<Byte>): File {
    File(head + Behind(bytes, |head|), |head|)
  }

  /** A write moves the data in front of the cursor. */
  lemma WriteSplit(head: seq<Byte>, bytes: seq<Byte>, data: seq<Byte>, junk: seq<Byte>)
    requires |junk| >= |head| + |data|
    ensures AfterWrite(Split(head, bytes), data, junk) == Split(head + data, bytes)
  {
    var f, n := Split(head, bytes), |head| + |data|;
    var w := AfterWrite(f, data, junk);
    assert w.bytes[..n] == head + data;
    assert w.bytes[n..] == Behind(bytes, n);
    assert w.bytes == w.bytes[..n] + w.bytes[n..];
  }

  lemma WriteTwice(f: File, a: seq<Byte>, b: seq<Byte>, junk: seq<Byte>)
    requires Valid(f) && |junk| >= f.pos + |a| + |b|
    ensures AfterWrite(AfterWrite(f, a, junk), b, junk) == AfterWrite(f, a + b, junk)
  {
    var p := f.bytes[..f.pos];
    assert f == Split(p, f.bytes);
    WriteSplit(p, f.bytes, a, junk);
    WriteSplit(p + a, f.bytes, b, junk);
    WriteSplit(p, f.bytes, a + b, junk);
    assert (p + a) + b == p + (a + b);
  }

  /** Writing in pieces is writing in one go. */
  lemma {:induction false} WritesConcatenate(f: File, pieces: seq<seq<Byte>>, junk: seq<Byte>)
    requires Valid(f) && |junk| >= f.pos + |Flatten(pieces)|
    ensures AfterWrites(f, pieces, junk) == AfterWrite(f, Flatten(pieces), junk)
    decreases |pieces|
  {
    if pieces == [] {
      assert AfterWrite(f, [], junk).bytes == f.bytes;
    } else {
      WritesConcatenate(AfterWrite(f, pieces[0], junk), pieces[1..], junk);
      WriteTwice(f, pieces[0], Flatten(pieces[1..]), junk);
    }
  }
}

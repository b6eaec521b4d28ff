/** The data of an ordinary file: a buffer that is reallocated, cut off and grown in place. */
module FileData {
  import opened Splices

  type Byte = bv8

  const ALLOCATION_UNIT: nat := 512
  const ULONG: nat := 0x1_0000_0000

  datatype Status = Success | DiskFull | EndOfFile

  function Min(a: nat, b: nat): nat {
    if a < b then a else b
  }

  function Zeros(n: nat): (z: seq<Byte>)
    ensures |z| == n
  {
    seq(n, _ => 0)
  }

  function RoundUp(n: nat): (m: nat)
    ensures n <= m < n + ALLOCATION_UNIT && m % ALLOCATION_UNIT == 0
  {
    (n + ALLOCATION_UNIT - 1) / ALLOCATION_UNIT * ALLOCATION_UNIT
  }

  /** Rounding up stays within a limit that is itself a multiple of the unit. */
  lemma RoundUpWithin(n: nat, max: nat)
    requires max % ALLOCATION_UNIT == 0
    ensures RoundUp(n) <= max <==> n <= max
  {
  }

  /** The volume's file size limit: a whole number of units, and large enough unless the 32-bit cast wraps to 0. */
  method RoundedMaxFileSize(maxFileSize: nat) returns (max: nat)
    requires maxFileSize < ULONG
    ensures max % ALLOCATION_UNIT == 0 && max < ULONG
    ensures max >= maxFileSize <==> maxFileSize <= ULONG - ALLOCATION_UNIT
    ensures maxFileSize > ULONG - ALLOCATION_UNIT ==> max == 0
  {
    max := (maxFileSize + ALLOCATION_UNIT - 1) / ALLOCATION_UNIT * ALLOCATION_UNIT % ULONG;
  }

  // ---------------------------------------------------------------- the file as a byte sequence

  /** Cut off, or grown with zeros. */
  function Resized(f: seq<Byte>, size: nat): (g: seq<Byte>)
    ensures |g| == size
  {
    if size <= |f| then f[..size] else f + Zeros(size - |f|)
  }

  datatype Op =
    | WriteOp(offset: nat, data: seq<Byte>, toEnd: bool, constrained: bool)
    | ReadOp(offset: nat, len: nat)
    | SizeOp(size: nat)
    | AllocOp(size: nat)
    | OverwriteOp(alloc: nat)
    | CleanupOp

  /** What a caller learns: a status and the bytes transferred. */
  datatype Reply = Reply(status: Status, count: nat, bytes: seq<Byte>)

  function WriteAt(f: seq<Byte>, op: Op): nat
    requires op.WriteOp?
  {
    if op.toEnd && !op.constrained then |f| else op.offset
  }

  /** The contents after an operation, under the file size limit. */
  function After(max: nat, f: seq<Byte>, op: Op): seq<Byte> {
    match op
    case WriteOp(_, data, _, constrained) =>
      var at := WriteAt(f, op);
      if constrained then
        if at >= |f| then f else Splice(f, at, data[..Min(|data|, |f| - at)])
      else if at + |data| > |f| then
        if at + |data| > max then f else Splice(Resized(f, at + |data|), at, data)
      else Splice(f, at, data)
    case ReadOp(_, _) => f
    case SizeOp(size) => if size > max then f else Resized(f, size)
    case AllocOp(size) => if size > max then f else f[..Min(|f|, size)]
    case OverwriteOp(alloc) => if alloc > max then f else []
    case CleanupOp => f
  }

  function ReplyOf(max: nat, f: seq<Byte>, op: Op): Reply {
    match op
    case WriteOp(_, data, _, constrained) =>
      var at := WriteAt(f, op);
      if constrained then Reply(Success, if at >= |f| then 0 else Min(|data|, |f| - at), [])
      else if at + |data| > |f| && at + |data| > max then Reply(DiskFull, 0, [])
      else Reply(Success, |data|, [])
    case ReadOp(offset, len) =>
      if offset >= |f| then Reply(EndOfFile, 0, [])
      else
        var n := Min(len, |f| - offset);
        Reply(Success, n, f[offset..offset + n])
    case SizeOp(size) => Reply(if size > max then DiskFull else Success, 0, [])
    case AllocOp(size) => Reply(if size > max then DiskFull else Success, 0, [])
    case OverwriteOp(alloc) => Reply(if alloc > max then DiskFull else Success, 0, [])
    case CleanupOp => Reply(Success, 0, [])
  }

  /** A write as a caller sees it, byte by byte: at the offset or, for an unconstrained write to the end, behind the
      last byte; a constrained write keeps to the file, any other first extends it with zeros to its own end. */
  ghost predicate Written(max: nat, f: seq<Byte>, offset: nat, data: seq<Byte>, toEnd: bool, constrained: bool,
    g: seq<Byte>, reply: Reply) {
    if constrained then
      var n := if offset >= |f| then 0 else if offset + |data| <= |f| then |data| else |f| - offset;
      && reply == Reply(Success, n, []) && |g| == |f|
      && forall i :: 0 <= i < |f| ==> g[i] == if offset <= i < offset + n then data[i - offset] else f[i]
    else
      var at := if toEnd then |f| else offset;
      if at + |data| > |f| && at + |data| > max then reply == Reply(DiskFull, 0, []) && g == f
      else
        && reply == Reply(Success, |data|, [])
        && |g| == (if at + |data| > |f| then at + |data| else |f|)
        && forall i :: 0 <= i < |g| ==>
             g[i] == if at <= i < at + |data| then data[i - at] else if i < |f| then f[i] else 0
  }

  lemma WrittenByteByByte(max: nat, f: seq<Byte>, op: Op)
    requires op.WriteOp?
    ensures Written(max, f, op.offset, op.data, op.toEnd, op.constrained, After(max, f, op), ReplyOf(max, f, op))
  {
  }

  function Run(max: nat, ops: seq<Op>): seq<Byte> {
    if ops == [] then [] else After(max, Run(max, ops[..|ops| - 1]), ops[|ops| - 1])
  }

  function Replies(max: nat, ops: seq<Op>): (r: seq<Reply>)
    ensures |r| == |ops|
  {
    if ops == [] then []
    else Replies(max, ops[..|ops| - 1]) + [ReplyOf(max, Run(max, ops[..|ops| - 1]), ops[|ops| - 1])]
  }

  /** No run takes a file beyond the limit. */
  lemma {:induction false} RunWithin(max: nat, ops: seq<Op>)
    ensures |Run(max, ops)| <= max
  {
    if ops != [] {
      RunWithin(max, ops[..|ops| - 1]);
    }
  }

  predicate Writes(f: seq<Byte>, op: Op, i: nat) {
    op.WriteOp? && WriteAt(f, op) <= i < WriteAt(f, op) + |op.data|
  }

  /** Step j leaves byte i inside the file and does not write it. */
  ghost predicate Untouched(max: nat, ops: seq<Op>, i: nat, j: nat)
    requires j < |ops|
  {
    i < |Run(max, ops[..j + 1])| && !Writes(Run(max, ops[..j]), ops[j], i)
  }

  lemma ByteAfter(max: nat, f: seq<Byte>, op: Op, i: nat)
    requires i < |After(max, f, op)| && !Writes(f, op, i)
    ensures After(max, f, op)[i] == if i < |f| then f[i] else 0
  {
  }

  /** A byte keeps its value until it is written or falls outside the file; if it comes back it is zero,
      however often the file was cut off and extended before. */
  lemma {:induction false} ByteKept(max: nat, ops: seq<Op>, i: nat, k: nat, m: nat)
    requires k < m <= |ops| && forall j :: k <= j < m ==> Untouched(max, ops, i, j)
    ensures i < |Run(max, ops[..m])|
    ensures Run(max, ops[..m])[i] == if i < |Run(max, ops[..k])| then Run(max, ops[..k])[i] else 0
  {
    assert Untouched(max, ops, i, m - 1);
    assert ops[..m][..m - 1] == ops[..m - 1];
    hide After;
    hide Writes;
    ByteAfter(max, Run(max, ops[..m - 1]), ops[m - 1], i);
    if k < m - 1 {
      ByteKept(max, ops, i, k, m - 1);
    }
  }

  /** What a successful write transferred reads back from where it went. */
  lemma WriteReadsBack(max: nat, f: seq<Byte>, op: Op)
    requires op.WriteOp? && ReplyOf(max, f, op).status == Success && ReplyOf(max, f, op).count > 0
    ensures var n := ReplyOf(max, f, op).count;
            && n <= |op.data|
            && ReplyOf(max, After(max, f, op), ReadOp(WriteAt(f, op), n)) == Reply(Success, n, op.data[..n])
  {
  }

  // ---------------------------------------------------------------- the buffer

  class FileNode {
    const maxFileSize: nat
    var fileData: array<Byte>
    var fileSize: nat
    var allocationSize: nat

    ghost predicate Valid()
      reads this
    {
      && maxFileSize % ALLOCATION_UNIT == 0
      && fileSize <= allocationSize <= maxFileSize
      && fileData.Length == allocationSize
    }

    ghost function Contents(): (f: seq<Byte>)
      requires Valid()
      reads this, fileData
      ensures |f| == fileSize
    {
      fileData[..fileSize]
    }

    /** A new file, with whatever bytes the heap gives it. */
    constructor (max: nat, allocation: nat)
      requires max % ALLOCATION_UNIT == 0 && allocation <= max
      ensures Valid() && fresh(fileData) && maxFileSize == max && Contents() == [] && allocationSize == allocation
    {
      maxFileSize := max;
      fileData := new Byte[allocation];
      fileSize, allocationSize := 0, allocation;
    }

    /** Another buffer of the new size with the old bytes up to the shorter of the two; the rest is arbitrary. */
    static method LargeHeapRealloc(old_: array<Byte>, size: nat) returns (data: array<Byte>)
      ensures fresh(data) && data.Length == size
      ensures forall i :: 0 <= i < Min(size, old_.Length) ==> data[i] == old_[i]
    {
      data := new Byte[size];
      forall i | 0 <= i < Min(size, old_.Length) {
        data[i] := old_[i];
      }
    }

    /** The allocation half of SetFileSizeInternal. */
    method SetAllocationSize(newSize: nat) returns (status: Status)
      requires Valid()
      modifies this
      ensures Valid() && (fileData == old(fileData) || fresh(fileData))
      ensures status == if newSize > maxFileSize then DiskFull else Success
      ensures status == Success ==> allocationSize == newSize
      ensures status == DiskFull ==> allocationSize == old(allocationSize)
      ensures Contents()
              == if status == Success then old(Contents())[..Min(old(fileSize), newSize)] else old(Contents())
    {
      if allocationSize != newSize {
        if newSize > maxFileSize {
          return DiskFull;
        }
        fileData := LargeHeapRealloc(fileData, newSize);
        allocationSize := newSize;
        if fileSize > newSize {
          fileSize := newSize;
        }
      }
      status := Success;
    }

    /** The size half of SetFileSizeInternal: grows the buffer by whole units when it must. */
    method SetSize(newSize: nat) returns (status: Status)
      requires Valid()
      modifies this, fileData
      ensures Valid() && (fileData == old(fileData) || fresh(fileData))
      ensures status == if newSize > maxFileSize then DiskFull else Success
      ensures Contents() == if status == Success then Resized(old(Contents()), newSize) else old(Contents())
      ensures allocationSize == if status == Success && newSize > old(allocationSize) then RoundUp(newSize)
                                else old(allocationSize)
    {
      RoundUpWithin(newSize, maxFileSize);
      if fileSize != newSize {
        if allocationSize < newSize {
          status := SetAllocationSize(RoundUp(newSize));
          if status != Success {
            return;
          }
        }
        if fileSize < newSize {
          ZeroFill(newSize);
        }
        fileSize := newSize;
      }
      status := Success;
    }

    /** memset of the bytes between the old size and the new. */
    method ZeroFill(newSize: nat)
      requires Valid() && fileSize < newSize <= allocationSize
      modifies fileData
      ensures fileData[..newSize] == Resized(old(fileData[..fileSize]), newSize)
    {
      forall i | fileSize <= i < newSize {
        fileData[i] := 0;
      }
    }

    method SetFileSize(newSize: nat, setAllocationSize: bool) returns (status: Status)
      requires Valid()
      modifies this, fileData
      ensures Valid() && (fileData == old(fileData) || fresh(fileData))
      ensures newSize > maxFileSize ==>
                status == DiskFull && Contents() == old(Contents()) && allocationSize == old(allocationSize)
      ensures newSize <= maxFileSize ==> status == Success
      ensures newSize <= maxFileSize && setAllocationSize ==>
                && allocationSize == newSize
                && Contents() == old(Contents())[..if newSize < old(fileSize) then newSize else old(fileSize)]
      ensures newSize <= maxFileSize && !setAllocationSize ==>
                && fileSize == newSize
                && forall i :: 0 <= i < newSize ==>
                     Contents()[i] == if i < old(fileSize) then old(Contents())[i] else 0
      ensures var op := if setAllocationSize then AllocOp(newSize) else SizeOp(newSize);
              && Contents() == After(maxFileSize, old(Contents()), op)
              && status == ReplyOf(maxFileSize, old(Contents()), op).status
    {
      if setAllocationSize {
        status := SetAllocationSize(newSize);
      } else {
        status := SetSize(newSize);
      }
    }

    method Overwrite(allocation: nat) returns (status: Status)
      requires Valid()
      modifies this
      ensures Valid() && (fileData == old(fileData) || fresh(fileData))
      ensures allocation <= maxFileSize ==>
                status == Success && Contents() == [] && fileSize == 0 && allocationSize == allocation
      ensures allocation > maxFileSize ==>
                status == DiskFull && Contents() == old(Contents()) && allocationSize == old(allocationSize)
      ensures Contents() == After(maxFileSize, old(Contents()), OverwriteOp(allocation))
      ensures status == ReplyOf(maxFileSize, old(Contents()), OverwriteOp(allocation)).status
      ensures status == Success ==> allocationSize == allocation
    {
      status := SetAllocationSize(allocation);
      if status != Success {
        return;
      }
      fileSize := 0;
    }

    /** The size part of Cleanup: gives back whole units beyond the file's end. */
    method CleanupAllocation()
      requires Valid()
      modifies this
      ensures Valid() && (fileData == old(fileData) || fresh(fileData))
      ensures Contents() == old(Contents()) && allocationSize == RoundUp(fileSize)
    {
      RoundUpWithin(fileSize, maxFileSize);
      var status := SetAllocationSize(RoundUp(fileSize));
    }

    method Read(offset: nat, length: nat) returns (reply: Reply)
      requires Valid()
      ensures offset >= fileSize ==> reply == Reply(EndOfFile, 0, [])
      ensures offset < fileSize ==>
                && reply.status == Success && reply.count == |reply.bytes|
                && |reply.bytes| == (if offset + length <= fileSize then length else fileSize - offset)
                && forall i :: 0 <= i < |reply.bytes| ==> reply.bytes[i] == fileData[offset + i]
      ensures reply == ReplyOf(maxFileSize, Contents(), ReadOp(offset, length))
    {
      if offset >= fileSize {
        return Reply(EndOfFile, 0, []);
      }
      var endOffset := offset + length;
      if endOffset > fileSize {
        endOffset := fileSize;
      }
      assert fileData[offset..endOffset] == Contents()[offset..endOffset];
      reply := Reply(Success, endOffset - offset, fileData[offset..endOffset]);
    }

    /** Writes in place; unless constrained, first extends the file to the end of the write. */
    method Write(offset: nat, data: seq<Byte>, writeToEndOfFile: bool, constrainedIo: bool) returns (reply: Reply)
      requires Valid()
      modifies this, fileData
      ensures Valid() && (fileData == old(fileData) || fresh(fileData))
      ensures Written(maxFileSize, old(Contents()), offset, data, writeToEndOfFile, constrainedIo, Contents(), reply)
      ensures Contents() == After(maxFileSize, old(Contents()), WriteOp(offset, data, writeToEndOfFile, constrainedIo))
      ensures reply == ReplyOf(maxFileSize, old(Contents()), WriteOp(offset, data, writeToEndOfFile, constrainedIo))
    {
      hide Splice;
      hide Resized;
      hide RoundUp;
      hide Written;
      WrittenByteByByte(maxFileSize, Contents(), WriteOp(offset, data, writeToEndOfFile, constrainedIo));
      var at, endOffset := offset, offset + |data|;
      assert data[..|data|] == data;
      if constrainedIo {
        if at >= fileSize {
          return Reply(Success, 0, []);
        }
        if endOffset > fileSize {
          endOffset := fileSize;
        }
      } else {
        if writeToEndOfFile {
          at := fileSize;
        }
        endOffset := at + |data|;
        if endOffset > fileSize {
          var status := SetSize(endOffset);
          if status != Success {
            return Reply(status, 0, []);
          }
        }
      }
      CopyIn(at, data[..endOffset - at]);
      reply := Reply(Success, endOffset - at, []);
    }

    /** memcpy into the buffer. */
    method CopyIn(at: nat, bytes: seq<Byte>)
      requires Valid() && at + |bytes| <= fileSize
      modifies fileData
      ensures Contents() == Splice(old(Contents()), at, bytes)
    {
      forall i | at <= i < at + |bytes| {
        fileData[i] := bytes[i - at];
      }
    }
  }

  /** Any run of operations on one file is answered as on a plain byte sequence. */
  method Replay(max: nat, allocation: nat, ops: seq<Op>) returns (replies: seq<Reply>)
    requires max % ALLOCATION_UNIT == 0 && allocation <= max
    ensures replies == Replies(max, ops)
  {
    hide After;
    hide ReplyOf;
    var node := new FileNode(max, allocation);
    replies := [];
    for k := 0 to |ops|
      invariant fresh(node) && fresh(node.fileData) && node.maxFileSize == max
      invariant node.Valid() && node.Contents() == Run(max, ops[..k])
      invariant replies == Replies(max, ops[..k])
    {
      assert ops[..k + 1][..k] == ops[..k];
      var reply := Serve(node, ops[k]);
      replies := replies + [reply];
    }
    assert ops[..|ops|] == ops;
  }

  method Serve(node: FileNode, op: Op) returns (reply: Reply)
    requires node.Valid()
    modifies node, node.fileData
    ensures node.Valid() && (node.fileData == old(node.fileData) || fresh(node.fileData))
    ensures node.Contents() == After(node.maxFileSize, old(node.Contents()), op)
    ensures reply == ReplyOf(node.maxFileSize, old(node.Contents()), op)
  {
    match op {
      case WriteOp(offset, data, toEnd, constrained) =>
        reply := node.Write(offset, data, toEnd, constrained);
      case ReadOp(offset, len) =>
        reply := node.Read(offset, len);
      case SizeOp(size) =>
        var status := node.SetFileSize(size, false);
        reply := Reply(status, 0, []);
      case AllocOp(size) =>
        var status := node.SetFileSize(size, true);
        reply := Reply(status, 0, []);
      case OverwriteOp(alloc) =>
        var status := node.Overwrite(alloc);
        reply := Reply(status, 0, []);
      case CleanupOp =>
        node.CleanupAllocation();
        reply := Reply(Success, 0, []);
    }
  }
}

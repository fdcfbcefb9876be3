/** The growable byte buffer with a cursor of marsksim/comm/autobuffer.cc. */
module AutoBuffers {
  import opened Bytes

  datatype SeekOrigin = SeekStart | SeekCur | SeekEnd

  function Max(a: int, b: int): int {
    if a > b then a else b
  }

  /** `data` written over `s` from position `at`, growing s when it is too short. */
  function Spliced(s: seq<Byte>, at: nat, data: seq<Byte>): (r: seq<Byte>)
    requires at <= |s|
    ensures |r| == Max(at + |data|, |s|)
  {
    s[..at] + data + if at + |data| < |s| then s[at + |data|..] else []
  }

  /** Contents after Move(n). */
  function Moved(s: seq<Byte>, n: int): seq<Byte> {
    if n > 0 then Zeros(n) + s else s[Min(-n, |s|)..]
  }

  function Zeros(n: nat): (z: seq<Byte>)
    ensures |z| == n
  {
    seq(n, _ => 0)
  }

  /** memmove of the first len bytes up by n, then memset of the first n to zero. */
  method ShiftUp(a: array<Byte>, n: nat, len: nat)
    requires n + len <= a.Length
    modifies a
    ensures a[..n + len] == Zeros(n) + old(a[..len])
  {
    forall k | 0 <= k < len {
      a[n + k] := a[k];
    }
    forall k | 0 <= k < n {
      a[k] := 0;
    }
  }

  /** memmove of a[n..len] down to the start. */
  method ShiftDown(a: array<Byte>, n: nat, len: nat)
    requires n <= len <= a.Length
    modifies a
    ensures a[..len - n] == old(a[..len])[n..]
  {
    forall k | 0 <= k < len - n {
      a[k] := a[n + k];
    }
  }

  /**
    parray[..length] is the content and pos the cursor.  Capacity is always a number of bytes
    that __FitSize asked for; a buffer that never grew has an empty array in place of NULL.
   */
  class AutoBuffer {
    var parray: array<Byte>
    var pos: int
    var length: nat
    var capacity: nat
    const unitSize: nat

    ghost predicate Valid()
      reads this
    {
      0 <= pos <= length && Allocated()
    }

    ghost predicate Allocated()
      reads this
    {
      length <= capacity == parray.Length && unitSize > 0
    }

    ghost function Contents(): (s: seq<Byte>)
      requires Valid()
      reads this, parray
    {
      parray[..length]
    }

    constructor (size: nat)
      requires size > 0
      ensures Valid() && fresh(parray) && Contents() == [] && pos == 0 && unitSize == size
    {
      parray := new Byte[0];
      pos, length, capacity, unitSize := 0, 0, 0, size;
    }

    /** __FitSize: grows to the next multiple of the unit and zeroes what was added. */
    method FitSize(len: nat)
      requires Valid()
      modifies this`parray, this`capacity
      ensures Valid() && capacity >= Max(len, old(capacity))
      ensures parray[..old(capacity)] == old(parray[..])
      ensures forall k :: old(capacity) <= k < capacity ==> parray[k] == 0
      ensures old(capacity) < len ==> fresh(parray) && capacity < len + unitSize
      ensures old(capacity) >= len ==> parray == old(parray) && capacity == old(capacity)
    {
      if len > capacity {
        var q := (len + unitSize - 1) / unitSize;
        var mallocSize := q * unitSize;
        RoundedUp(len, unitSize);
        var p := new Byte[mallocSize](_ => 0);
        forall k | 0 <= k < capacity {
          p[k] := parray[k];
        }
        parray := p;
        capacity := mallocSize;
      }
    }

    /** Write(const off_t& pos, ptr, len): overwrite from `at`; the cursor stays. */
    method WriteAt(at: nat, data: seq<Byte>)
      requires Valid() && at <= length
      modifies this`parray, this`capacity, this`length, parray
      ensures Valid() && (parray == old(parray) || fresh(parray))
      ensures Contents() == Spliced(old(Contents()), at, data)
    {
      ghost var before := Contents();
      FitSize(at + |data|);
      assert parray[..length] == before;
      length := Max(at + |data|, length);
      forall k | 0 <= k < |data| {
        parray[at + k] := data[k];
      }
      assert parray[..length] == Spliced(before, at, data);
    }

    /** Write(ptr, len): overwrite at the cursor and advance it. */
    method Write(data: seq<Byte>)
      requires Valid()
      modifies this`parray, this`capacity, this`length, this`pos, parray
      ensures Valid() && (parray == old(parray) || fresh(parray))
      ensures Contents() == Spliced(old(Contents()), old(pos), data)
      ensures pos == old(pos) + |data|
    {
      WriteAt(pos, data);
      Seek(|data|, SeekCur);
    }

    /** AllocWrite: room for n bytes at the cursor; with changeLength they become content. */
    method AllocWrite(n: nat, changeLength: bool)
      requires Valid()
      modifies this`parray, this`capacity, this`length
      ensures Valid() && (parray == old(parray) || fresh(parray)) && capacity >= pos + n
      ensures length == if changeLength then Max(pos + n, old(length)) else old(length)
      ensures Contents()[..old(length)] == old(Contents())
    {
      var nLen := pos + n;
      FitSize(nLen);
      assert forall k :: 0 <= k < old(length) ==> parray[k] == parray[..old(capacity)][k];
      if changeLength {
        length := Max(nLen, length);
      }
    }

    /** Seek: the cursor is clamped into 0..length. */
    method Seek(offset: int, origin: SeekOrigin)
      requires Allocated()
      modifies this`pos
      ensures Valid()
      ensures var from := match origin case SeekStart => 0 case SeekCur => old(pos) case SeekEnd => length;
              pos == Clamp(offset + from, length)
    {
      match origin {
        case SeekStart => pos := offset;
        case SeekCur => pos := pos + offset;
        case SeekEnd => pos := length + offset;
      }
      if pos < 0 { pos := 0; }
      if pos > length { pos := length; }
    }

    /** Length(pos, length). */
    method SetLength(p: nat, len: nat)
      requires Valid() && p <= len <= capacity
      modifies this`pos, this`length
      ensures Valid() && pos == p && length == len
    {
      length := len;
      Seek(p, SeekStart);
    }

    /** Move(n): n > 0 opens a gap of n zero bytes at the front, n <= 0 drops -n bytes from it. */
    method Move(moveLen: int) returns (len: nat)
      requires Valid()
      modifies this`parray, this`capacity, this`length, this`pos, parray
      ensures Valid() && len == length && (parray == old(parray) || fresh(parray))
      ensures moveLen <= 0 ==> parray == old(parray)
      ensures Contents() == Moved(old(Contents()), moveLen) && pos == Max(old(pos) + moveLen, 0)
    {
      if 0 < moveLen {
        OpenGap(moveLen);
      } else {
        DropFront(-moveLen);
      }
      len := length;
    }

    method OpenGap(n: nat)
      requires Valid() && n > 0
      modifies this`parray, this`capacity, this`length, this`pos, parray
      ensures Valid() && (parray == old(parray) || fresh(parray))
      ensures Contents() == Moved(old(Contents()), n) && pos == old(pos) + n
    {
      ghost var before := Contents();
      FitSize(length + n);
      assert parray[..length] == before;
      ShiftUp(parray, n, length);
      SetLength(pos + n, length + n);
    }

    method DropFront(n: nat)
      requires Valid()
      modifies this`length, this`pos, parray
      ensures Valid()
      ensures Contents() == Moved(old(Contents()), -(n as int)) && pos == Max(old(pos) - n, 0)
    {
      ghost var before := Contents();
      var m := if n > length then length else n;
      ShiftDown(parray, m, length);
      SetLength(if m < pos then pos - m else 0, length - m);
    }

    /** FIFO use, part 1: with the cursor at the end, Write appends. */
    method Append(data: seq<Byte>)
      requires Valid() && pos == length
      modifies this`parray, this`capacity, this`length, this`pos, parray
      ensures Valid() && pos == length && (parray == old(parray) || fresh(parray))
      ensures Contents() == old(Contents()) + data
    {
      Write(data);
    }

    /** FIFO use, part 2: Move(-n) removes from the front and keeps the cursor at the end. */
    method Consume(n: nat)
      requires Valid() && pos == length && n <= length
      modifies this`parray, this`capacity, this`length, this`pos, parray
      ensures Valid() && pos == length && parray == old(parray)
      ensures Contents() == old(Contents())[n..]
    {
      var _ := Move(-(n as int));
    }

    /** Attach(AutoBuffer&): takes the other buffer's memory and leaves it empty. */
    method AttachFrom(rhs: AutoBuffer)
      requires Valid() && rhs.Valid() && rhs != this
      modifies this`parray, this`capacity, this`length, this`pos
      modifies rhs`parray, rhs`capacity, rhs`length, rhs`pos
      ensures Valid() && parray == old(rhs.parray) && pos == old(rhs.pos)
      ensures Contents() == old(rhs.Contents())
      ensures rhs.Valid() && fresh(rhs.parray) && rhs.Contents() == [] && rhs.pos == 0
    {
      parray, pos, length, capacity := rhs.parray, rhs.pos, rhs.length, rhs.capacity;
      rhs.parray := new Byte[0];
      rhs.Reset();
    }

    method Reset()
      modifies this`parray, this`capacity, this`length, this`pos
      requires unitSize > 0
      ensures Valid() && fresh(parray) && Contents() == [] && pos == 0
    {
      parray := new Byte[0];
      pos, length, capacity := 0, 0, 0;
    }
  }

  function Min(a: int, b: int): int {
    if a < b then a else b
  }

  function Clamp(x: int, hi: nat): int {
    if x < 0 then 0 else if x > hi then hi else x
  }

  lemma RoundedUp(len: nat, unit: nat)
    requires unit > 0
    ensures var m := (len + unit - 1) / unit * unit; len <= m < len + unit
  {
    var q := (len + unit - 1) / unit;
    assert len + unit - 1 == q * unit + (len + unit - 1) % unit;
  }
}

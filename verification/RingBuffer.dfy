/** The byte ring of src/io/buffer.cpp: a fixed array with a read and a write position. Equal positions always mean
    "empty", so a ring of N bytes holds at most N - 1. */
module RingBuffer {
  import opened Bytes

  /** The index of the first `b` in `s`, or `|s|` when there is none. */
  function FirstIndex(s: seq<byte>, b: byte): (k: nat)
    ensures k <= |s|
    ensures k < |s| ==> s[k] == b
    ensures b !in s[..k]
  {
    if s == [] || s[0] == b then 0
    else
      var rest := FirstIndex(s[1..], b);
      assert s[..1 + rest] == [s[0]] + s[1..][..rest];
      1 + rest
  }

  lemma FirstIndexUnique(s: seq<byte>, b: byte, k: nat)
    requires k <= |s| && (k < |s| ==> s[k] == b) && b !in s[..k]
    ensures k == FirstIndex(s, b)
  {
    var m := FirstIndex(s, b);
    assert forall i :: 0 <= i < k ==> s[i] == s[..k][i];
    assert forall i :: 0 <= i < m ==> s[i] == s[..m][i];
  }

  /** Position `k` places after the start of an `n`-cell array, going on from its start after the last cell. */
  function Slot(n: nat, k: nat): (i: nat)
    requires k < 2 * n
    ensures i < n
  {
    if k < n then k else k - n
  }

  lemma ModIsSlot(n: nat, k: nat)
    requires 0 < n && k < 2 * n
    ensures k % n == Slot(n, k)
  {
    if k < n {
    } else {
      assert k == n * 1 + (k - n);
    }
  }

  /** The bytes held by a ring: those from the read position up to the write position, wrapping at the end. */
  function Held(b: seq<byte>, r: nat, w: nat): (s: seq<byte>)
    requires r < |b| && w < |b|
    ensures |s| < |b|
    ensures |s| == if w < r then |b| - r + w else w - r
    ensures forall i :: 0 <= i < |s| ==> s[i] == b[Slot(|b|, r + i)]
  {
    if w < r then b[r..] + b[..w] else b[r..w]
  }

  /** `b` with `data` laid over it from position `at`. */
  function Overlay(b: seq<byte>, at: nat, data: seq<byte>): (s: seq<byte>)
    requires at + |data| <= |b|
    ensures |s| == |b|
    ensures forall i :: 0 <= i < |b| ==> s[i] == if at <= i < at + |data| then data[i - at] else b[i]
  {
    b[..at] + data + b[at + |data|..]
  }

  /** Laying bytes after the write position extends the held bytes, when they stay below the end of the array. */
  lemma OverlayExtends(b: seq<byte>, r: nat, w: nat, data: seq<byte>)
    requires r < |b| && w < |b|
    requires |Held(b, r, w)| + |data| < |b| && w + |data| < |b|
    ensures Held(Overlay(b, w, data), r, w + |data|) == Held(b, r, w) + data
  {
    var extended, target := Held(Overlay(b, w, data), r, w + |data|), Held(b, r, w) + data;
    assert |extended| == |target|;
    forall i | 0 <= i < |extended| ensures extended[i] == target[i] {
      assert extended[i] == Overlay(b, w, data)[Slot(|b|, r + i)];
    }
  }

  /** The same when the bytes reach the end of the array and go on from its start. */
  lemma OverlayWraps(b: seq<byte>, r: nat, w: nat, data: seq<byte>)
    requires r <= w < |b| && |b| - w <= |data|
    requires |Held(b, r, w)| + |data| < |b|
    ensures |data| - (|b| - w) < r
    ensures
      var cut := |b| - w;
      Held(Overlay(Overlay(b, w, data[..cut]), 0, data[cut..]), r, |data| - cut) == Held(b, r, w) + data
  {
    var cut := |b| - w;
    var once := Overlay(b, w, data[..cut]);
    var twice := Overlay(once, 0, data[cut..]);
    var extended, target := Held(twice, r, |data| - cut), Held(b, r, w) + data;
    assert |extended| == |target|;
    forall i | 0 <= i < |extended| ensures extended[i] == target[i] {
      assert extended[i] == twice[Slot(|b|, r + i)];
    }
  }

  /** Moving the read position past `k` held bytes drops exactly those. */
  lemma AdvanceDrops(b: seq<byte>, r: nat, w: nat, k: nat)
    requires r < |b| && w < |b| && k <= |Held(b, r, w)|
    ensures Held(b, Slot(|b|, r + k), w) == Held(b, r, w)[k..]
  {
    var dropped, target := Held(b, Slot(|b|, r + k), w), Held(b, r, w)[k..];
    assert |dropped| == |target|;
    forall i | 0 <= i < |dropped| ensures dropped[i] == target[i] {
      assert target[i] == Held(b, r, w)[k + i];
    }
  }

  /** The first `k` held bytes are the slices the source copies, and what is left starts right after them. */
  lemma ReadSplits(b: seq<byte>, r: nat, w: nat, k: nat)
    requires r < |b| && w < |b| && k <= |Held(b, r, w)|
    ensures Held(b, r, w) == (if r + k <= |b| then b[r..r + k] else b[r..] + b[..r + k - |b|])
                             + Held(b, Slot(|b|, r + k), w)
  {
    AdvanceDrops(b, r, w, k);
    assert Held(b, r, w) == Held(b, r, w)[..k] + Held(b, r, w)[k..];
  }

  /** What a search for `x` does to the held bytes: it lands on the first one, or finds none, and then drops them all
      unless the write position is 0. */
  ghost predicate Sought(b: seq<byte>, r: nat, w: nat, x: byte, found: bool, to: nat)
    requires r < |b| && w < |b| && to < |b|
  {
    && (found <==> x in Held(b, r, w))
    && Held(b, to, w) == if found then Held(b, r, w)[FirstIndex(Held(b, r, w), x)..]
                         else if w == 0 then Held(b, r, w) else []
  }

  /** Cell `i` is held, and read before cell `to`. */
  predicate ReadBefore(r: nat, to: nat, i: nat) {
    if to < r then r <= i || i < to else r <= i < to
  }

  lemma FoundAt(b: seq<byte>, r: nat, w: nat, x: byte, to: nat)
    requires r < |b| && w < |b| && to < |b|
    requires if w < r then r <= to || to < w else r <= to < w
    requires b[to] == x
    requires forall i :: 0 <= i < |b| && ReadBefore(r, to, i) ==> b[i] != x
    ensures Sought(b, r, w, x, true, to)
  {
    hide FirstIndex;
    var k, held := if to < r then |b| - r + to else to - r, Held(b, r, w);
    assert FirstIndex(held, x) == k by {
      forall i | 0 <= i < k ensures held[i] != x {
        assert ReadBefore(r, to, Slot(|b|, r + i));
      }
      FirstIndexUnique(held, x, k);
    }
    assert Held(b, to, w) == held[k..] by {
      AdvanceDrops(b, r, w, k);
    }
  }

  lemma NotFound(b: seq<byte>, r: nat, w: nat, x: byte)
    requires r < |b| && w < |b|
    requires forall i :: 0 <= i < |b| && ReadBefore(r, w, i) ==> b[i] != x
    ensures Sought(b, r, w, x, false, if w == 0 then r else w)
  {
    assert x !in Held(b, r, w);
  }

  /** The array after `data` is written at position `w`, going on from the start once the end is reached. */
  function Stored(b: seq<byte>, w: nat, data: seq<byte>): (s: seq<byte>)
    requires w < |b| && |data| <= |b|
    ensures |s| == |b|
  {
    if |data| < |b| - w then Overlay(b, w, data)
    else Overlay(Overlay(b, w, data[..|b| - w]), 0, data[|b| - w..])
  }

  lemma StoredExtends(b: seq<byte>, r: nat, w: nat, data: seq<byte>)
    requires r < |b| && w < |b|
    requires |Held(b, r, w)| + |data| < |b|
    ensures Held(Stored(b, w, data), r, Slot(|b|, w + |data|)) == Held(b, r, w) + data
  {
    if |data| < |b| - w {
      OverlayExtends(b, r, w, data);
    } else {
      OverlayWraps(b, r, w, data);
    }
  }

  lemma HeldNothing(b: seq<byte>, r: nat)
    requires r < |b|
    ensures Held(b, r, r) == []
  {
  }

  class CircularBuffer {
    const buffer: array<byte>
    var readPos: nat
    var writePos: nat

    ghost var contents: seq<byte>  // the bytes held, oldest first

    ghost predicate Valid()
      reads this, buffer
      ensures Valid() ==> |contents| < buffer.Length
    {
      && readPos < buffer.Length && writePos < buffer.Length
      && contents == Held(buffer[..], readPos, writePos)
    }

    constructor (size: nat)
      requires size > 0
      ensures Valid() && fresh(buffer) && buffer.Length == size && contents == []
      ensures readPos == writePos == 0
    {
      buffer := new byte[size];
      readPos, writePos := 0, 0;
      contents := [];
    }

    function ReadAvailable(): (n: nat)
      requires Valid()
      reads this, buffer
      ensures n == |contents|
    {
      if writePos < readPos then (buffer.Length - readPos) + writePos else writePos - readPos
    }

    /** Whether the bytes held go around the end of the array can be told from their number. */
    lemma AroundIff()
      requires Valid()
      ensures writePos < readPos <==> readPos + |contents| >= buffer.Length
    {
    }

    /** The source counts the space from the write position to the end twice over when the positions are in order,
        so in that case the answer is the whole size, however full the ring is. */
    function WriteAvailable(): (n: nat)
      requires Valid()
      reads this, buffer
      ensures n == if writePos < readPos then buffer.Length - |contents| else buffer.Length
    {
      if writePos >= readPos then (buffer.Length - writePos) + writePos else readPos - writePos
    }

    predicate CanRead(size: nat)
      requires Valid()
      reads this, buffer
      ensures CanRead(size) <==> size <= |contents|
    {
      ReadAvailable() >= size
    }

    /** An insertion that would leave the ring usable is never refused. While the positions are in order, one up to the
        size of the ring is not refused either, however full the ring is. */
    predicate CanWrite(size: nat)
      requires Valid()
      reads this, buffer
      ensures CanWrite(size) <==> size <= if writePos < readPos then buffer.Length - |contents| else buffer.Length
      ensures |contents| + size < buffer.Length ==> CanWrite(size)
    {
      WriteAvailable() >= size
    }

    method Reset()
      modifies this
      requires Valid()
      ensures Valid() && contents == []
    {
      readPos, writePos := 0, 0;
      contents := [];
    }

    /** Searches `count` array cells from `from` for `b`. */
    method MemChr(from: nat, count: nat, b: byte) returns (offset: nat)
      requires from + count <= buffer.Length
      ensures from <= offset <= from + count
      ensures forall i :: from <= i < offset ==> buffer[i] != b
      ensures offset < from + count ==> buffer[offset] == b
    {
      offset := from;
      while offset < from + count && buffer[offset] != b
        invariant from <= offset <= from + count
        invariant forall i :: from <= i < offset ==> buffer[i] != b
      {
        offset := offset + 1;
      }
    }

    /** Moves the read position to the first `b`. When there is none the held bytes are dropped, except that a ring
        whose write position is 0 keeps them. */
    method FindAndSeekRead(b: byte) returns (ok: bool)
      requires Valid()
      modifies this
      ensures Valid() && writePos == old(writePos)
      ensures ok <==> b in old(contents)
      ensures contents == if ok then old(contents)[FirstIndex(old(contents), b)..]
                          else if writePos == 0 then old(contents) else []
    {
      ghost var cells := buffer[..];
      ok := true;
      if writePos < readPos {
        var spaceToMax := buffer.Length - readPos;
        var offset := MemChr(readPos, spaceToMax, b);
        if offset < buffer.Length {
          FoundAt(cells, readPos, writePos, b, offset);
          readPos := offset;
        } else if writePos < 1 {
          NotFound(cells, readPos, writePos, b);
          ok := false;
        } else {
          offset := MemChr(0, writePos, b);
          if offset == writePos {
            NotFound(cells, readPos, writePos, b);
            readPos := writePos;
            ok := false;
          } else {
            FoundAt(cells, readPos, writePos, b, offset);
            readPos := offset;
          }
        }
      } else {
        var offset := MemChr(readPos, writePos - readPos, b);
        if offset == writePos {
          NotFound(cells, readPos, writePos, b);
          readPos := writePos;
          ok := false;
        } else {
          FoundAt(cells, readPos, writePos, b, offset);
          readPos := offset;
        }
      }
      contents := Held(cells, readPos, writePos);
    }

    /** Drops the `offset` oldest bytes, or everything when fewer are held. */
    method SeekRead(offset: nat)
      requires Valid()
      modifies this
      ensures Valid() && writePos == old(writePos)
      ensures contents == if offset <= |old(contents)| then old(contents)[offset..] else []
    {
      var step := offset;
      if writePos < readPos {
        var spaceToMax := buffer.Length - readPos;
        if step > spaceToMax && step > spaceToMax + writePos {
          step := spaceToMax + writePos;
        }
      } else {
        var space := writePos - readPos;
        if step > space {
          step := space;
        }
      }
      AdvanceDrops(buffer[..], readPos, writePos, step);
      ModIsSlot(buffer.Length, readPos + step);
      readPos := (readPos + step) % buffer.Length;
      contents := contents[step..];
    }

    /** Copies the `size` oldest bytes, if that many are held. */
    method CopyOut(size: nat) returns (ok: bool, data: seq<byte>)
      requires Valid()
      ensures ok <==> size <= |contents|
      ensures ok ==> data == if readPos + size <= buffer.Length then buffer[..][readPos..readPos + size]
                             else buffer[..][readPos..] + buffer[..][..readPos + size - buffer.Length]
    {
      hide Held;
      data := [];
      if size > buffer.Length {
        return false, data;
      }
      if writePos < readPos {
        var spaceToMax := buffer.Length - readPos;
        if size < spaceToMax {
          data := buffer[readPos..readPos + size];
        } else {
          if size > spaceToMax + writePos {
            return false, data;
          }
          data := buffer[readPos..readPos + spaceToMax] + buffer[..size - spaceToMax];
        }
      } else {
        var space := writePos - readPos;
        if size > space {
          return false, data;
        }
        data := buffer[readPos..readPos + size];
      }
      ok := true;
    }

    /** Takes the `size` oldest bytes, or none at all when fewer are held. */
    method Read(size: nat) returns (ok: bool, data: seq<byte>)
      requires Valid()
      modifies this
      ensures Valid() && writePos == old(writePos)
      ensures ok <==> size <= |old(contents)|
      ensures ok ==> old(contents) == data + contents && |data| == size
      ensures !ok ==> readPos == old(readPos) && contents == old(contents)
    {
      ghost var cells := buffer[..];
      hide Held, Slot;
      ok, data := CopyOut(size);
      if ok {
        ReadSplits(cells, readPos, writePos, size);
        ModIsSlot(buffer.Length, readPos + size);
        readPos := (readPos + size) % buffer.Length;
        contents := Held(cells, readPos, writePos);
      }
    }

    /** Copies `data` into the array from position `at`. */
    method MemCpy(at: nat, data: seq<byte>)
      requires at + |data| <= buffer.Length
      modifies buffer
      ensures buffer[..] == Overlay(old(buffer[..]), at, data)
    {
      forall i | 0 <= i < |data| {
        buffer[at + i] := data[i];
      }
      assert buffer[at..at + |data|] == data;
    }

    /** Copies `data` behind the held bytes, going on from the start of the array, if it fits at all. */
    method CopyIn(data: seq<byte>) returns (ok: bool)
      requires readPos < buffer.Length && writePos < buffer.Length
      modifies buffer
      ensures ok <==> |data| <= if writePos < readPos then readPos - writePos else buffer.Length - writePos + readPos
      ensures buffer[..] == if ok then Stored(old(buffer[..]), writePos, data) else old(buffer[..])
    {
      hide Overlay;
      if |data| > buffer.Length {
        return false;
      }
      if writePos >= readPos {
        var spaceToMax := buffer.Length - writePos;
        if |data| < spaceToMax {
          MemCpy(writePos, data);
        } else {
          if |data| > spaceToMax + readPos {
            return false;
          }
          MemCpy(writePos, data[..spaceToMax]);
          MemCpy(0, data[spaceToMax..]);
        }
      } else {
        var space := readPos - writePos;
        if |data| > space {
          return false;
        }
        MemCpy(writePos, data);
      }
      ok := true;
    }

    /** Appends `data` exactly when it leaves one byte free. Filling the ring to the brim is also reported as a
        success, but makes the two positions equal: everything held, and `data` with it, is gone. */
    method Write(data: seq<byte>) returns (ok: bool)
      requires Valid()
      modifies this, buffer
      ensures Valid()
      ensures ok <==> |old(contents)| + |data| <= buffer.Length
      ensures |old(contents)| + |data| < buffer.Length ==> contents == old(contents) + data
      ensures |old(contents)| + |data| == buffer.Length ==> contents == []
      ensures !ok ==> contents == old(contents)
      ensures readPos == old(readPos)
    {
      hide Overlay, Held, Stored;
      ghost var before := buffer[..];
      ok := CopyIn(data);
      if !ok {
        return;
      }
      if |contents| + |data| < buffer.Length {
        StoredExtends(before, readPos, writePos, data);
        contents := contents + data;
      } else {
        contents := [];
        HeldNothing(buffer[..], readPos);
      }
      ModIsSlot(buffer.Length, writePos + |data|);
      writePos := (writePos + |data|) % buffer.Length;
    }

    /** The bytes a source hands out in answer to the (at most two) requests `ReadFrom` makes: the second request is
        made only when the first was answered in full. */
    ghost function HandedOut(first: seq<byte>, second: seq<byte>): seq<byte>
      reads this
    {
      if writePos >= readPos && |first| == buffer.Length - writePos && readPos != 1 then first + second else first
    }

    lemma InRange()
      requires Valid()
      ensures readPos < buffer.Length && writePos < buffer.Length
    {
    }

    /** How much that can be: it fills the ring only when the bytes held go around the end of the array, or are read from
        position 0. */
    lemma HandedOutBound(first: seq<byte>, second: seq<byte>)
      requires Valid()
      requires |first| <= if writePos >= readPos then buffer.Length - writePos else readPos - writePos
      requires |second| <= if readPos == 0 then buffer.Length - 1 else readPos - 1
      ensures || |contents| + |HandedOut(first, second)| < buffer.Length
              || readPos == 0
              || (writePos < readPos && |contents| + |HandedOut(first, second)| == buffer.Length)
    {
    }

    /** Takes bytes that do not go beyond the end of the array. */
    method TakeStraight(data: seq<byte>)
      requires Valid()
      requires if writePos < readPos then |data| <= readPos - writePos else |data| < buffer.Length - writePos
      modifies this, buffer
      ensures Valid() && readPos == old(readPos)
      ensures contents == old(contents) + data <==> |old(contents)| + |data| < buffer.Length
      ensures writePos == old(writePos) + |data|
    {
      hide Overlay;
      ghost var before := buffer[..];
      MemCpy(writePos, data);
      if |contents| + |data| < buffer.Length {
        OverlayExtends(before, readPos, writePos, data);
      }
      writePos := writePos + |data|;
      contents := Held(buffer[..], readPos, writePos);
    }

    /** Takes bytes up to the end of the array, and more from its start on. */
    method TakeWrapped(first: seq<byte>, second: seq<byte>)
      requires Valid() && readPos <= writePos && |first| == buffer.Length - writePos
      requires |second| <= if readPos == 0 then buffer.Length - 1 else readPos - 1
      modifies this, buffer
      ensures Valid() && readPos == old(readPos)
      ensures contents == old(contents) + (first + second) <==> |old(contents)| + |first + second| < buffer.Length
      ensures readPos == 1 ==> |contents| == buffer.Length - 1
      ensures writePos == |second|
    {
      hide Overlay;
      ghost var before, taken := buffer[..], first + second;
      assert taken[..|first|] == first && taken[|first|..] == second;
      MemCpy(writePos, first);
      MemCpy(0, second);
      if 0 < readPos {
        OverlayWraps(before, readPos, writePos, taken);
      }
      writePos := |second|;
      contents := Held(buffer[..], readPos, writePos);
    }

    /** Fills the ring from a source. `first` and `second` are whatever the source answers to the two requests.
        What it hands out is appended exactly when it is smaller than the free space. */
    method ReadFrom(first: seq<byte>, second: seq<byte>) returns (ok: bool)
      requires Valid()
      requires |first| <= if writePos >= readPos then buffer.Length - writePos else readPos - writePos
      // With the read position at 0 the second request is for SIZE_MAX bytes; more than the array holds cannot be
      // given any meaning here.
      requires |second| <= if readPos == 0 then buffer.Length - 1 else readPos - 1
      modifies this, buffer
      ensures Valid() && readPos == old(readPos)
      ensures contents == old(contents + HandedOut(first, second))
              <==> old(|contents| + |HandedOut(first, second)|) < buffer.Length
      ensures !ok ==> |contents| == buffer.Length - 1
      ensures old(|contents| + |HandedOut(first, second)|) < buffer.Length ==>
                writePos == Slot(buffer.Length, old(writePos + |HandedOut(first, second)|))
    {
      hide Valid, Held;
      InRange();
      if writePos >= readPos {
        var space := buffer.Length - writePos;
        if |first| < space {
          TakeStraight(first);
          return true;
        }
        if readPos != 1 {
          TakeWrapped(first, second);
          return true;
        } else {
          assert first + [] == first;
          TakeWrapped(first, []);
          return false;
        }
      } else {
        TakeStraight(first);
        return true;
      }
    }

    /** Hands the held bytes to a sink that accepts `firstCount` of the first run and, if that was all of it and the
        ring is wrapped, `secondCount` of the second. What it accepted is the oldest part of what was held. */
    method WriteInto(firstCount: nat, secondCount: nat) returns (ok: bool, sent: seq<byte>)
      requires Valid()
      requires firstCount <= if writePos < readPos then buffer.Length - readPos else writePos - readPos
      requires secondCount <= writePos
      modifies this
      ensures Valid()
      ensures ok <==> old(contents) != []
      ensures old(contents) == sent + contents
      ensures |sent| == firstCount
                        + if old(writePos < readPos && firstCount == buffer.Length - readPos) then secondCount else 0
      ensures readPos == Slot(buffer.Length, old(readPos) + |sent|)
    {
      hide Held;
      sent := [];
      if writePos == readPos {
        return false, sent;
      }
      var next := readPos + firstCount;
      if writePos < readPos {
        var space := buffer.Length - readPos;
        sent := buffer[readPos..readPos + firstCount];
        if firstCount == space {
          sent := sent + buffer[..secondCount];
          next := secondCount;
        }
      } else {
        sent := buffer[readPos..readPos + firstCount];
      }
      ghost var cells := buffer[..];
      ReadSplits(cells, readPos, writePos, |sent|);
      contents := Held(cells, next, writePos);
      readPos := next;
      ok := true;
    }
  }
}

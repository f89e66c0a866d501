/** ring_buffer.c, for elements that are samples. */
module RingBuffers {
  import opened Samples

  function Min(x: int, y: int): int {
    if x < y then x else y
  }

  /** What WebRtc_ReadBuffer stores through data_ptr: nothing, an address in the buffer or that of the copy. */
  datatype Pointer = Nowhere | IntoBuffer(start: nat) | IntoCopy

  class RingBuffer {
    const data: array<real>
    var readPos: nat
    var writePos: nat
    var diffWrap: bool  // rw_wrap: false is SAME_WRAP, true is DIFF_WRAP

    /** Everything ever written, after as many zeros as the buffer has cells. */
    ghost var history: seq<real>

    /**
     * Both positions may equal the number of cells. The cells below writePos hold the newest elements, the cells from
     * writePos on the ones before them: together the last elements of the history, rotated.
     */
    ghost predicate Valid()
      reads this, data
    {
      && 0 < data.Length <= |history|
      && readPos <= data.Length && writePos <= data.Length
      && (if diffWrap then writePos <= readPos else readPos <= writePos)
      && Rotated(data[..], history, writePos)
    }

    function AvailableRead(): (readable: nat)
      requires Valid()
      reads this, data
      ensures readable <= data.Length <= |history|
    {
      Between(readPos, writePos, diffWrap, data.Length)
    }

    function AvailableWrite(): (room: int)
      requires Valid()
      reads this, data
      ensures 0 <= room <= data.Length
    {
      data.Length - AvailableRead()
    }

    /** The index in the history of the next element to be read. */
    ghost function ReadIndex(): nat
      requires Valid()
      reads this, data
    {
      |history| - AvailableRead()
    }

    constructor (elementCount: nat)
      requires elementCount > 0
      ensures Valid() && fresh(data) && data.Length == elementCount
      ensures history == Zeros(elementCount) && AvailableRead() == 0
    {
      data := new real[elementCount](_ => 0.0);
      readPos, writePos, diffWrap := 0, 0, false;
      history := Zeros(elementCount);
    }

    /** WebRtc_InitBuffer. */
    method Init()
      requires data.Length > 0
      modifies this, data
      ensures Valid() && history == Zeros(data.Length) && AvailableRead() == 0
    {
      readPos, writePos, diffWrap := 0, 0, false;
      forall i | 0 <= i < data.Length {
        data[i] := 0.0;
      }
      history := Zeros(data.Length);
    }

    /** GetBufferReadRegions: where the next elements to be read lie, in one region or in two. */
    method ReadRegions(elementCount: nat)
      returns (readElements: nat, start1: nat, length1: nat, length2: nat)
      requires Valid()
      ensures readElements == Min(AvailableRead(), elementCount) && length1 + length2 == readElements
      ensures start1 + length1 <= data.Length && length2 <= data.Length
      ensures data[start1..start1 + length1] + data[..length2] == history[ReadIndex()..ReadIndex() + readElements]
    {
      var readable := AvailableRead();
      readElements := if readable < elementCount then readable else elementCount;
      var margin := data.Length - readPos;
      start1 := readPos;
      if readElements > margin {
        length1 := margin;
        length2 := readElements - margin;
      } else {
        length1 := readElements;
        length2 := 0;
      }
      Regions(readElements, length1, length2);
    }

    lemma Regions(count: nat, length1: nat, length2: nat)
      requires Valid() && count <= AvailableRead() && length1 + length2 == count
      requires length1 == Min(count, data.Length - readPos)
      ensures data[readPos..readPos + length1] + data[..length2] == history[ReadIndex()..ReadIndex() + count]
    {
      hide Rotated;
      RotatedRegions(data[..], history, writePos, readPos, diffWrap, count, length1);
      assert data[readPos..readPos + length1] == data[..][readPos..readPos + length1];
      assert data[..length2] == data[..][..length2];
    }

    /** WebRtc_ReadBuffer without a data_ptr: the elements are copied out. */
    method ReadBuffer(elementCount: nat) returns (elements: seq<real>)
      requires Valid()
      modifies this`readPos, this`diffWrap
      ensures Valid()
      ensures elements == history[old(ReadIndex())..old(ReadIndex()) + Min(old(AvailableRead()), elementCount)]
      ensures AvailableRead() == old(AvailableRead()) - |elements|
    {
      hide Valid, AvailableRead, AvailableWrite;
      var readCount, start1, length1, length2 := ReadRegions(elementCount);
      elements := data[start1..start1 + length1] + data[..length2];
      var _ := MoveReadPtr(readCount);
    }

    /** The two memcpys of a read that wraps around. */
    method CopyOut(copy: array<real>, start1: nat, length1: nat, length2: nat)
      requires copy != data && start1 + length1 <= data.Length && length2 <= data.Length && length1 + length2 <= copy.Length
      modifies copy
      ensures copy[..] == data[start1..start1 + length1] + data[..length2] + old(copy[length1 + length2..])
    {
      ghost var before := copy[..];
      forall i | 0 <= i < length1 {
        copy[i] := data[start1 + i];
      }
      forall i | 0 <= i < length2 {
        copy[length1 + i] := data[i];
      }
      assert copy[..length1] == data[start1..start1 + length1];
      assert copy[length1..length1 + length2] == data[..length2];
      assert copy[length1 + length2..] == before[length1 + length2..];
      assert copy[..] == copy[..length1] + copy[length1..length1 + length2] + copy[length1 + length2..];
    }

    /**
     * WebRtc_ReadBuffer with a data_ptr: elements that lie in one region are not copied but pointed to; only those that
     * wrap around are copied.
     */
    method ReadBufferInPlace(elementCount: nat, copy: array<real>) returns (readCount: nat, pointer: Pointer)
      requires Valid() && copy != data && elementCount <= copy.Length
      modifies this`readPos, this`diffWrap, copy
      ensures Valid()
      ensures readCount == Min(old(AvailableRead()), elementCount)
      ensures AvailableRead() == old(AvailableRead()) - readCount
      ensures pointer.Nowhere? <==> readCount == 0
      ensures pointer.IntoBuffer? ==>
                && pointer.start + readCount <= data.Length && copy[..] == old(copy[..])
                && data[pointer.start..pointer.start + readCount]
                   == history[old(ReadIndex())..old(ReadIndex()) + readCount]
      ensures pointer.IntoCopy? ==>
                copy[..] == history[old(ReadIndex())..old(ReadIndex()) + readCount] + old(copy[readCount..])
    {
      hide Valid, AvailableRead, AvailableWrite;
      var start1, length1, length2;
      readCount, start1, length1, length2 := ReadRegions(elementCount);
      ghost var read, rest := data[start1..start1 + length1] + data[..length2], copy[readCount..];
      pointer := IntoBuffer(start1);
      if length2 > 0 {
        CopyOut(copy, start1, length1, length2);
        assert copy[..] == read + rest;
        pointer := IntoCopy;
      } else {
        assert data[start1..start1 + readCount] == read;
      }
      if readCount == 0 {
        pointer := Nowhere;
      }
      var _ := MoveReadPtr(readCount);
    }

    /** The memcpy of n elements, from src[from ..] to the cells from pos on. */
    method CopyIn(pos: nat, src: seq<real>, from: nat, n: nat)
      requires pos + n <= data.Length && from + n <= |src|
      modifies data
      ensures data[..] == Overwritten(old(data[..]), pos, src, from, n)
    {
      ghost var before := data[..];
      forall i | 0 <= i < n {
        data[pos + i] := src[from + i];
      }
      assert data[..] == Overwritten(before, pos, src, from, n);
    }

    /** WebRtc_WriteBuffer: as many of the elements as there is room for. */
    method WriteBuffer(src: seq<real>) returns (written: nat)
      requires Valid()
      modifies this`writePos, this`diffWrap, this`history, data
      ensures Valid()
      ensures written == Min(old(AvailableWrite()), |src|)
      ensures history == old(history) + src[..written]
      ensures AvailableRead() == old(AvailableRead()) + written
    {
      hide Rotated, Overwritten;
      var free := AvailableWrite();
      written := if free < |src| then free else |src|;
      var n := written;
      var margin := data.Length - writePos;
      ghost var cells, before, start := data[..], history, writePos;
      if written > margin {
        CopyIn(writePos, src, 0, margin);
        writePos := 0;
        n := n - margin;
        diffWrap := true;
      }
      CopyIn(writePos, src, written - n, n);
      writePos := writePos + n;
      history := history + src[..written];
      CellsAfterWrite(cells, before, start, src, written, writePos);
    }

    /** WebRtc_MoveReadPtr: forwards or backwards, as far as there is something to read or to take back. */
    method MoveReadPtr(elementCount: int) returns (moved: int)
      requires Valid()
      modifies this`readPos, this`diffWrap
      ensures Valid()
      ensures moved == if elementCount > old(AvailableRead()) then old(AvailableRead())
                       else if elementCount < -old(AvailableWrite()) then -old(AvailableWrite())
                       else elementCount
      ensures AvailableRead() == old(AvailableRead()) - moved
    {
      var freeElements := AvailableWrite();
      var readableElements := AvailableRead();
      var newPos: int := readPos;
      moved := elementCount;
      if moved > readableElements {
        moved := readableElements;
      }
      if moved < -freeElements {
        moved := -freeElements;
      }
      newPos := newPos + moved;
      if newPos > data.Length {
        newPos := newPos - data.Length;
        diffWrap := false;
      }
      if newPos < 0 {
        newPos := newPos + data.Length;
        diffWrap := true;
      }
      readPos := newPos;
    }
  }

  /** WebRtc_CreateBuffer: there are no buffers without cells. */
  method CreateBuffer(elementCount: nat) returns (b: RingBuffer?)
    ensures b == null <==> elementCount == 0
    ensures b != null ==> fresh(b) && fresh(b.data) && b.Valid() && b.data.Length == elementCount
    ensures b != null ==> b.history == Zeros(elementCount) && b.AvailableRead() == 0
  {
    if elementCount == 0 {
      return null;
    }
    b := new RingBuffer(elementCount);
  }

  /** The cells of a buffer in which `pos` cells are newer than the rest hold the last elements of the history. */
  ghost predicate Rotated(cells: seq<real>, history: seq<real>, pos: nat) {
    && pos <= |cells| <= |history|
    && cells[..pos] == history[|history| - pos..]
    && cells[pos..] == history[|history| - |cells|..|history| - pos]
  }

  /** What a single cell holds. */
  lemma RotatedCell(cells: seq<real>, history: seq<real>, pos: nat, c: nat)
    requires Rotated(cells, history, pos) && c < |cells|
    ensures cells[c] == history[|history| - (if c < pos then pos - c else |cells| - (c - pos))]
  {
    if c < pos {
      assert cells[c] == cells[..pos][c];
    } else {
      assert cells[c] == cells[pos..][c - pos];
    }
  }

  /** The number of elements between the two positions, of n cells. */
  function Between(readPos: nat, writePos: nat, diffWrap: bool, n: nat): int {
    if !diffWrap then writePos - readPos else n - readPos + writePos
  }

  /** The cells from readPos on, and again from the start, are the part of the history that is to be read. */
  lemma RotatedRegions(cells: seq<real>, history: seq<real>, pos: nat, readPos: nat, diffWrap: bool, count: nat, length1: nat)
    requires Rotated(cells, history, pos) && readPos <= |cells|
    requires if diffWrap then pos <= readPos else readPos <= pos
    requires count <= Between(readPos, pos, diffWrap, |cells|) && length1 == Min(count, |cells| - readPos)
    ensures count - length1 <= |cells| <= |history| && Between(readPos, pos, diffWrap, |cells|) <= |history|
    ensures var from := |history| - Between(readPos, pos, diffWrap, |cells|);
            cells[readPos..readPos + length1] + cells[..count - length1] == history[from..from + count]
  {
    var from := |history| - Between(readPos, pos, diffWrap, |cells|);
    var s, t := cells[readPos..readPos + length1] + cells[..count - length1], history[from..from + count];
    forall i | 0 <= i < count ensures s[i] == t[i] {
      RotatedCell(cells, history, pos, if i < length1 then readPos + i else i - length1);
    }
  }

  /** The cells after n elements have been copied to those from pos on. */
  ghost function Overwritten(cells: seq<real>, pos: nat, src: seq<real>, from: nat, n: nat): (cells': seq<real>)
    requires pos + n <= |cells| && from + n <= |src|
    ensures |cells'| == |cells|
  {
    cells[..pos] + src[from..from + n] + cells[pos + n..]
  }

  lemma OverwrittenCell(cells: seq<real>, pos: nat, src: seq<real>, from: nat, n: nat, i: nat)
    requires pos + n <= |cells| && from + n <= |src| && i < |cells|
    ensures Overwritten(cells, pos, src, from, n)[i] == if pos <= i < pos + n then src[from + i - pos] else cells[i]
  {
  }

  /** The copies made by a write of n elements: one, or two of them if the end is reached. */
  ghost function Written(cells: seq<real>, pos: nat, src: seq<real>, n: nat): (cells': seq<real>)
    requires pos <= |cells| && n <= |cells| && n <= |src|
    ensures |cells'| == |cells|
  {
    var margin := |cells| - pos;
    if n > margin then Overwritten(Overwritten(cells, pos, src, 0, margin), 0, src, margin, n - margin)
    else Overwritten(cells, pos, src, 0, n)
  }

  lemma WrittenCell(cells: seq<real>, pos: nat, src: seq<real>, n: nat, i: nat)
    requires pos <= |cells| && n <= |cells| && n <= |src| && i < |cells|
    ensures Written(cells, pos, src, n)[i]
         == if pos <= i < pos + n then src[i - pos]
            else if i + |cells| < pos + n then src[i + |cells| - pos]
            else cells[i]
  {
    hide Overwritten;
    var margin := |cells| - pos;
    if n > margin {
      OverwrittenCell(cells, pos, src, 0, margin, i);
      OverwrittenCell(Overwritten(cells, pos, src, 0, margin), 0, src, margin, n - margin, i);
    } else {
      OverwrittenCell(cells, pos, src, 0, n, i);
    }
  }

  /** Writing on from pos, and again from the start of the buffer when its end is reached. */
  lemma CellsAfterWrite(cells: seq<real>, history: seq<real>, pos: nat, src: seq<real>, n: nat, pos': nat)
    requires Rotated(cells, history, pos) && n <= |cells| && n <= |src|
    requires pos' == if pos + n > |cells| then pos + n - |cells| else pos + n
    ensures Rotated(Written(cells, pos, src, n), history + src[..n], pos')
  {
    hide Written;
    var h, cells' := history + src[..n], Written(cells, pos, src, n);
    forall i | 0 <= i < |cells| ensures cells'[i] == h[|h| - (if i < pos' then pos' - i else |cells| - (i - pos'))] {
      RotatedCell(cells, history, pos, i);
      WrittenCell(cells, pos, src, n, i);
    }
  }
}

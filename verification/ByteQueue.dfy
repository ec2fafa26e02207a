/**
  The byte queue of include/membuffer.h.  The content lies in `buf` from `headPos` on;
  removing at the front moves the head, inserting at the front moves it back when it can.
  Every operation is stated on the content as a plain sequence of bytes.  Sizes are
  32-bit: the only expression that can wrap is the new capacity, kept as written.
*/
module ByteQueue {
  import opened Bytes
  import opened Wrappers

  const DEFAULT_BLOCK_SIZE: uint32 := 4096
  const HUGE: uint32 := 0xf000_0000
  const END_POSITION: uint32 := 0xFFFF_FFFF

  /** A wide terminator. */
  const TERMINATOR: seq<byte> := [0, 0, 0, 0]

  /** The capacity computed when `need` bytes do not fit in `max`, in 32-bit arithmetic. */
  function GrownCapacity(max: uint32, block: uint32, need: nat): uint32
    requires block > 0
  {
    if need >= HUGE then END_POSITION else (max + block * (1 + need / block)) % 0x1_0000_0000
  }

  function Clamp(position: nat, size: nat): nat {
    if position > size then size else position
  }

  function Spliced(s: seq<byte>, at: nat, added: seq<byte>): seq<byte>
    requires at <= |s|
  {
    s[..at] + added + s[at..]
  }

  function Removed(s: seq<byte>, at: nat, n: nat): seq<byte>
    requires at + n <= |s|
  {
    s[..at] + s[at + n..]
  }

  /** Replacing a slice is writing over what both have in common, and removing or inserting the rest. */
  lemma Replaced(was: seq<byte>, pos: nat, len: nat, data: seq<byte>)
    requires pos + len <= |was|
    ensures var target := Spliced(Removed(was, pos, len), pos, data);
      && (len >= |data| ==>
            var over := was[..pos] + data + was[pos + |data|..];
            Removed(over, pos + |data|, len - |data|) == target && (len == |data| ==> over == target))
      && (len < |data| ==> Spliced(was[..pos] + data[..len] + was[pos + len..], pos + len, data[len..]) == target)
  {
    var target := was[..pos] + data + was[pos + len..];
    assert Spliced(Removed(was, pos, len), pos, data) == target;
    if len >= |data| {
      var over := was[..pos] + data + was[pos + |data|..];
      assert over[..pos + |data|] == was[..pos] + data;
      assert over[pos + len..] == was[pos + len..];
    } else {
      var over := was[..pos] + data[..len] + was[pos + len..];
      assert over[..pos + len] == was[..pos] + data[..len] && over[pos + len..] == was[pos + len..];
      assert was[..pos] + data[..len] + data[len..] == was[..pos] + data;
    }
  }

  lemma WrittenOver(s: seq<byte>, at: nat, data: seq<byte>)
    requires at + |data| <= |s|
    ensures var over := s[..at] + data + s[at + |data|..];
      && |over| == |s|
      && forall i :: 0 <= i < |s| ==> over[i] == if at <= i < at + |data| then data[i - at] else s[i]
  {
  }

  class UQueue {
    var buf: array<byte>
    var maxBuffer: uint32
    var size: uint32
    var headPos: uint32
    var blockSize: uint32
    var utf8ToW: bool
    var toUtf8: bool
    ghost var content: seq<byte>

    /** The content lies in the buffer, from the head on. */
    ghost predicate Placed()
      reads this, buf
    {
      && buf.Length == maxBuffer
      && headPos + size <= maxBuffer
      && blockSize > 0
      && |content| == size
      && forall i :: 0 <= i < size ==> content[i] == buf[headPos + i]
    }

    ghost predicate Valid()
      reads this, buf
    {
      Placed() && (size == 0 ==> headPos == 0)
    }

    /** The caller's part of the bargain: the 32-bit capacity an insertion computes must hold the result. */
    predicate Fits(len: nat)
      reads this
    {
      blockSize > 0 && (size + len <= maxBuffer || size + len <= GrownCapacity(maxBuffer, blockSize, size + len))
    }

    constructor (maxLen: uint32, block: uint32)
      ensures Valid() && fresh(buf)
      ensures content == [] && maxBuffer == maxLen && !utf8ToW && !toUtf8
      ensures blockSize == if block == 0 then DEFAULT_BLOCK_SIZE else block
    {
      maxBuffer, size, headPos, content := maxLen, 0, 0, [];
      blockSize := if block == 0 then DEFAULT_BLOCK_SIZE else block;
      utf8ToW, toUtf8 := false, false;
      buf := new byte[maxLen];
    }

    /** memmove and memcpy. */
    static method CopyBytes(src: array<byte>, start: nat, dst: array<byte>, to: nat, n: nat)
      requires start + n <= src.Length && to + n <= dst.Length
      modifies dst
      ensures forall i :: 0 <= i < dst.Length ==>
        dst[i] == if to <= i < to + n then old(src[start + i - to]) else old(dst[i])
    {
      forall i | 0 <= i < n {
        dst[to + i] := src[start + i];
      }
    }

    static method WriteBytes(dst: array<byte>, to: nat, data: seq<byte>)
      requires to + |data| <= dst.Length
      modifies dst
      ensures forall i :: 0 <= i < dst.Length ==>
        dst[i] == if to <= i < to + |data| then data[i - to] else old(dst[i])
    {
      forall i | 0 <= i < |data| {
        dst[to + i] := data[i];
      }
    }

    /** Copying behind what is already there. */
    static method CopyBehind(src: array<byte>, start: nat, dst: array<byte>, to: nat, n: nat)
      requires src != dst && start + n <= src.Length && to + n <= dst.Length
      modifies dst
      ensures dst[..to + n] == old(dst[..to]) + src[start..start + n]
    {
      CopyBytes(src, start, dst, to, n);
    }

    static method WriteBehind(dst: array<byte>, to: nat, data: seq<byte>)
      requires to + |data| <= dst.Length
      modifies dst
      ensures dst[..to + |data|] == old(dst[..to]) + data
    {
      WriteBytes(dst, to, data);
    }

    static method MoveToFront(dst: array<byte>, start: nat, n: nat)
      requires start + n <= dst.Length
      modifies dst
      ensures forall i :: 0 <= i < n ==> dst[i] == old(dst[start + i])
    {
      CopyBytes(dst, start, dst, 0, n);
    }

    /** Moves the bytes from `at` to `end` to the right and writes the data into the gap. */
    static method OpenGap(dst: array<byte>, at: nat, end: nat, data: seq<byte>)
      requires at <= end && end + |data| <= dst.Length
      modifies dst
      ensures forall i :: 0 <= i < dst.Length ==>
        dst[i] == if at <= i < at + |data| then data[i - at]
                  else if at + |data| <= i < end + |data| then old(dst[i - |data|])
                  else old(dst[i])
    {
      CopyBytes(dst, at, dst, at + |data|, end - at);
      WriteBytes(dst, at, data);
    }

    /** Moves the bytes from `at + n` to `end` to the left, down to `at`. */
    static method ShiftLeft(dst: array<byte>, at: nat, n: nat, end: nat)
      requires at + n <= end <= dst.Length
      modifies dst
      ensures forall i :: 0 <= i < dst.Length ==>
        dst[i] == if at <= i < end - n then old(dst[i + n]) else old(dst[i])
    {
      CopyBytes(dst, at + n, dst, at, end - at - n);
    }

    /** Moves the content to the very beginning of the buffer. */
    method ResetHeadPosition()
      requires Placed()
      modifies this`headPos, buf
      ensures Valid() && headPos == 0
    {
      if headPos > 0 {
        var start := headPos;
        headPos := 0;
        if size > 0 {
          MoveToFront(buf, start, size);
        }
      }
    }

    /** Makes bytes in front of the content, such as ones just popped, part of it again. */
    method SetHeadPosition(pos: uint32)
      requires Valid() && pos <= headPos
      modifies this`headPos, this`size, this`content
      ensures Valid() && content == old(buf[pos..headPos] + content)
    {
      if pos >= headPos {
        return;
      }
      content := buf[pos..headPos] + content;
      size := size + (headPos - pos);
      headPos := pos;
    }

    /** Sets the content size; bytes past the old content become visible as they are. */
    method SetSize(newSize: uint32, adjustHeadPos: bool)
      requires Valid() && headPos + newSize <= maxBuffer
      modifies this`headPos, this`size, this`content, buf
      ensures Valid() && content == old(buf[headPos..headPos + newSize])
      ensures adjustHeadPos ==> headPos == 0
    {
      size, content := newSize, buf[headPos..headPos + newSize];
      if adjustHeadPos {
        ResetHeadPosition();
      } else if newSize == 0 {
        headPos := 0;
      }
    }

    /** Replaces the buffer, keeping as much of the content as fits. */
    method ReallocBuffer(newSize: uint32)
      requires Valid()
      modifies this
      ensures Valid() && fresh(buf) && headPos == 0
      ensures maxBuffer == if newSize == 0 then blockSize else newSize
      ensures content == old(content)[..Clamp(maxBuffer, |old(content)|)]
      ensures blockSize == old(blockSize) && utf8ToW == old(utf8ToW) && toUtf8 == old(toUtf8)
    {
      var n := if newSize == 0 then blockSize else newSize;
      if size > n {
        size, content := n, content[..n];
      }
      maxBuffer := n;
      var p := new byte[n];
      if size > 0 {
        CopyBytes(buf, headPos, p, 0, size);
      }
      buf, headPos := p, 0;
    }

    /** Inserts bytes at a position, or at the end when the position lies past it. */
    method Insert(data: seq<byte>, pos: uint32)
      requires Valid() && Fits(|data|)
      modifies this, buf
      ensures Valid() && (buf == old(buf) || fresh(buf))
      ensures content == Spliced(old(content), Clamp(pos, |old(content)|), data)
      ensures old(headPos) == 0 ==> headPos == 0
      ensures maxBuffer == if old(size) + |data| <= old(maxBuffer) then old(maxBuffer)
                           else GrownCapacity(old(maxBuffer), old(blockSize), old(size) + |data|)
      ensures blockSize == old(blockSize) && utf8ToW == old(utf8ToW) && toUtf8 == old(toUtf8)
    {
      var len := |data|;
      if len == 0 {
        assert content == Spliced(content, Clamp(pos, |content|), data);
        return;
      }
      var position := pos;
      if position > size {
        position := size;
      } else if position == 0 && headPos >= len {
        InsertBefore(data);
        return;
      }
      if maxBuffer - headPos - size >= len && position == size {
        InsertAfter(data);
        return;
      }
      ResetHeadPosition();
      if maxBuffer - size >= len {
        InsertInPlace(data, position);
      } else {
        InsertGrowing(data, position);
      }
    }

    /** Writes the data over the bytes just before the head. */
    method InsertBefore(data: seq<byte>)
      requires Valid() && 0 < |data| <= headPos
      modifies this`headPos, this`size, this`content, buf
      ensures Valid() && content == Spliced(old(content), 0, data)
    {
      headPos, size, content := headPos - |data|, size + |data|, Spliced(content, 0, data);
      WriteBytes(buf, headPos, data);
    }

    /** Writes the data into the free bytes after the content. */
    method InsertAfter(data: seq<byte>)
      requires Valid() && 0 < |data| <= maxBuffer - headPos - size
      modifies this`size, this`content, buf
      ensures Valid() && content == Spliced(old(content), |old(content)|, data)
    {
      size, content := size + |data|, Spliced(content, size, data);
      WriteBytes(buf, headPos + size - |data|, data);
    }

    /** Shifts the bytes from `position` on to the right and writes the data into the gap. */
    method InsertInPlace(data: seq<byte>, position: uint32)
      requires Valid() && headPos == 0 && position <= size && 0 < |data| <= maxBuffer - size
      modifies this`size, this`content, buf
      ensures Valid() && content == Spliced(old(content), position, data)
    {
      size, content := size + |data|, Spliced(content, position, data);
      OpenGap(buf, position, size - |data|, data);
    }

    /** Builds the new content in a larger buffer. */
    method InsertGrowing(data: seq<byte>, position: uint32)
      requires Valid() && headPos == 0 && position <= size && maxBuffer - size < |data|
      requires Fits(|data|)
      modifies this`buf, this`maxBuffer, this`size, this`content
      ensures Valid() && fresh(buf) && content == Spliced(old(content), position, data)
      ensures maxBuffer == GrownCapacity(old(maxBuffer), blockSize, old(size) + |data|)
    {
      var n := GrownCapacity(maxBuffer, blockSize, size + |data|);
      var temp := new byte[n];
      assert buf[..size] == content;
      CopySpliced(buf, size, temp, position, data);
      size, content := size + |data|, Spliced(content, position, data);
      buf, maxBuffer := temp, n;
    }

    /** Copies the first bytes of a buffer with others put between them. */
    static method CopySpliced(src: array<byte>, size: nat, dst: array<byte>, position: nat, data: seq<byte>)
      requires src != dst && position <= size <= src.Length && size + |data| <= dst.Length
      modifies dst
      ensures dst[..size + |data|] == Spliced(src[..size], position, data)
    {
      if position > 0 {
        CopyBehind(src, 0, dst, 0, position);
      }
      WriteBehind(dst, position, data);
      if size > position {
        CopyBehind(src, position, dst, position + |data|, size - position);
      }
      assert src[0..position] == src[..size][..position] && src[position..size] == src[..size][position..];
    }

    method Push(data: seq<byte>)
      requires Valid() && Fits(|data|)
      modifies this, buf
      ensures Valid() && (buf == old(buf) || fresh(buf))
      ensures content == old(content) + data
      ensures old(headPos) == 0 ==> headPos == 0
      ensures maxBuffer == if old(size) + |data| <= old(maxBuffer) then old(maxBuffer)
                           else GrownCapacity(old(maxBuffer), old(blockSize), old(size) + |data|)
      ensures blockSize == old(blockSize) && utf8ToW == old(utf8ToW) && toUtf8 == old(toUtf8)
    {
      Insert(data, END_POSITION);
    }

    /** Discards up to `len` bytes at a position and tells how many. */
    method Discard(len: uint32, position: uint32) returns (n: uint32)
      requires Valid()
      modifies this`size, this`headPos, this`content, buf
      ensures Valid()
      ensures n == if |old(content)| <= position then 0 else Clamp(len, |old(content)| - position)
      ensures content == if n == 0 then old(content) else Removed(old(content), position, n)
    {
      n := len;
      if n == 0 || size <= position {
        return 0;
      } else if n > size - position {
        n := size - position;
      }
      Cut(n, position);
    }

    /** Closes the gap left by `n` bytes removed at `position`. */
    method Cut(n: uint32, position: uint32)
      requires Valid() && position + n <= size
      modifies this`size, this`headPos, this`content, buf
      ensures Valid() && content == Removed(old(content), position, n)
    {
      if size == n {
        size, headPos, content := 0, 0, [];
      } else if position == 0 {
        size, headPos, content := size - n, headPos + n, content[n..];
      } else {
        CloseGap(n, position);
      }
    }

    /** Moves the bytes after a gap in the middle to the left. */
    method CloseGap(n: uint32, position: uint32)
      requires Valid() && 0 < position && position + n <= size
      modifies this`size, this`content, buf
      ensures Valid() && content == Removed(old(content), position, n)
    {
      size, content := size - n, Removed(content, position, n);
      ShiftLeft(buf, headPos + position, n, headPos + size + n);
    }

    /** Pops exactly `len` bytes at a position, or fails and leaves the queue as it was. */
    method Pop(len: uint32, position: uint32) returns (r: Result<seq<byte>, Failure>)
      requires Valid() && len + position <= MAX_UINT32
      modifies this`size, this`headPos, this`content, buf
      ensures Valid() && (r.Ok? <==> len + position <= |old(content)|)
      ensures r.Ok? ==> r.value == old(content)[position..position + len]
      ensures content == if r.Ok? then Removed(old(content), position, len) else old(content)
    {
      if size < len + position {
        return Err(BadDeserialization);
      }
      var data := buf[headPos + position..headPos + position + len];
      assert data == content[position..position + len];
      Cut(len, position);
      return Ok(data);
    }

    /** Replaces `len` bytes at a position by other bytes, of any number. */
    method Replace(pos: uint32, len: uint32, data: seq<byte>)
      requires Valid() && pos + len <= size
      requires |data| > len ==> Fits(|data| - len)
      modifies this, buf
      ensures Valid() && (buf == old(buf) || fresh(buf))
      ensures content == Spliced(Removed(old(content), pos, len), pos, data)
    {
      hide Spliced, Removed;
      Replaced(content, pos, len, data);
      if len > |data| {
        Overwrite(pos, data);
        var _ := Discard(len - |data|, pos + |data|);
      } else if len == |data| {
        Overwrite(pos, data);
      } else {
        Overwrite(pos, data[..len]);
        Insert(data[len..], pos + len);
      }
    }

    /** Writes over part of the content. */
    method Overwrite(pos: uint32, data: seq<byte>)
      requires Valid() && pos + |data| <= size
      modifies this`content, buf
      ensures Valid() && content == old(content)[..pos] + data + old(content)[pos + |data|..]
    {
      WrittenOver(content, pos, data);
      content := content[..pos] + data + content[pos + |data|..];
      WriteBytes(buf, headPos + pos, data);
    }

    /** Puts four zero bytes after the content without making them part of it. */
    method SetNull()
      requires Valid() && Fits(|TERMINATOR|)
      modifies this, buf
      ensures Valid() && (buf == old(buf) || fresh(buf))
      ensures content == old(content)
      ensures headPos + size + |TERMINATOR| <= maxBuffer
      ensures forall i :: headPos + size <= i < headPos + size + |TERMINATOR| ==> buf[i] == 0
    {
      if maxBuffer >= headPos + size + |TERMINATOR| {
        WriteBytes(buf, headPos + size, TERMINATOR);
      } else {
        ghost var was := content;
        Push(TERMINATOR);
        assert forall i :: 0 <= i < |was| ==> content[i] == was[i];
        assert forall i :: headPos + |was| <= i < headPos + size ==> buf[i] == content[i - headPos] == 0;
        size, content := size - |TERMINATOR|, was;
      }
    }

    /** Zeroes every byte of the buffer that is not content. */
    method CleanTrack()
      requires Valid()
      modifies buf
      ensures Valid()
      ensures forall i :: 0 <= i < headPos || headPos + size <= i < maxBuffer ==> buf[i] == 0
    {
      WriteBytes(buf, 0, seq(headPos, _ => 0));
      WriteBytes(buf, headPos + size, seq(maxBuffer - headPos - size, _ => 0));
    }
  }
}

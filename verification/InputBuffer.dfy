/** The sliding input buffer of the parser: XML_GetBuffer, XML_ParseBuffer and XML_Parse, with
    XML_CONTEXT_BYTES defined. Whatever is moved or reallocated, the buffer holds the unconsumed
    part of everything fed in, behind the context kept before it. */
module InputBuffer {

  const XML_CONTEXT_BYTES: nat := 1024
  const INIT_BUFFER_SIZE: nat := 1024

  type Byte = bv8

  datatype Parsing = Initialized | Parsing | Finished

  datatype Status = StatusError | StatusOk

  /** What the processor does with the bytes it is given: how many it consumes, or an error. */
  datatype Processed = Consumed(bytes: nat) | Failed

  function Min(a: int, b: int): int {
    if a <= b then a else b
  }

  /** memmove(a, a + offset, n) */
  method MoveBytes(a: array<Byte>, offset: nat, n: nat)
    requires offset + n <= a.Length
    modifies a
    ensures a[..n] == old(a[offset..offset + n])
    ensures a[n..] == old(a[n..])
  {
    var i := 0;
    while i < n
      invariant i <= n
      invariant forall j :: 0 <= j < i ==> a[j] == old(a[offset + j])
      invariant forall j :: i <= j < a.Length ==> a[j] == old(a[j])
    {
      a[i] := a[offset + i];
      i := i + 1;
    }
  }

  /** memcpy, to an offset of dst. */
  method CopyBytes(dst: array<Byte>, d: nat, src: seq<Byte>)
    requires d + |src| <= dst.Length
    modifies dst
    ensures dst[..d] == old(dst[..d]) && dst[d..d + |src|] == src
  {
    var i := 0;
    while i < |src|
      invariant i <= |src|
      invariant dst[..d] == old(dst[..d]) && dst[d..d + i] == src[..i]
    {
      dst[d + i] := src[i];
      i := i + 1;
    }
  }

  class Parser {
    /** No bytes are allocated until the first call: buffer.Length is 0 where the pointer is NULL. */
    var buffer: array<Byte>
    var bufferPtr: nat
    var bufferEnd: nat
    var parseEndByteIndex: nat
    var parsing: Parsing
    var failed: bool

    /** Everything fed in so far, and the offset in it of the first byte of the buffer. */
    ghost var stream: seq<Byte>
    ghost var base: nat

    ghost predicate Valid()
      reads this`buffer, this`bufferPtr, this`bufferEnd, this`parseEndByteIndex, this`stream, this`base, buffer
    {
      && bufferPtr <= bufferEnd <= buffer.Length
      && base + bufferEnd == |stream| == parseEndByteIndex
      && buffer[..bufferEnd] == stream[base..]
    }

    /** How much of the stream the processor has consumed. */
    ghost function Consumed(): nat
      reads this`base, this`bufferPtr
    {
      base + bufferPtr
    }

    constructor ()
      ensures Valid() && stream == [] && Consumed() == 0 && parsing == Initialized && !failed
    {
      buffer := new Byte[0];
      bufferPtr, bufferEnd, parseEndByteIndex := 0, 0, 0;
      parsing, failed := Initialized, false;
      stream, base := [], 0;
    }

    /** XML_GetBuffer: room for len bytes at bufferEnd. Context before bufferPtr is kept when the
        bytes have to move: as much as there is, up to XML_CONTEXT_BYTES. */
    method GetBuffer(len: int) returns (ok: bool)
      requires Valid()
      modifies this`buffer, this`bufferPtr, this`bufferEnd, this`base, buffer
      ensures Valid() && (buffer == old(buffer) || fresh(buffer))
      ensures ok <==> parsing != Finished
      ensures ok ==> len <= buffer.Length - bufferEnd
      ensures stream[Consumed()..] == old(stream[Consumed()..]) && Consumed() == old(Consumed())
      ensures bufferEnd - bufferPtr == old(bufferEnd - bufferPtr)
      ensures bufferPtr == old(bufferPtr) || bufferPtr == 1024 < old(bufferPtr)
    {
      if parsing == Finished {
        return false;
      }
      if len > buffer.Length - bufferEnd {
        var keep := Min(XML_CONTEXT_BYTES, bufferPtr);
        var neededSize := len + (bufferEnd - bufferPtr) + keep;
        if neededSize <= buffer.Length {
          if keep < bufferPtr {
            MoveDown(bufferPtr - keep);
          }
        } else {
          Reallocate(neededSize, keep);
        }
      }
      ok := true;
    }

    /** memmove of the kept context and the unconsumed bytes to the start of the buffer. */
    method MoveDown(offset: nat)
      requires Valid() && offset <= bufferPtr
      modifies this`bufferPtr, this`bufferEnd, this`base, buffer
      ensures Valid() && bufferPtr == old(bufferPtr) - offset && bufferEnd == old(bufferEnd) - offset
      ensures Consumed() == old(Consumed())
    {
      ghost var whole := buffer[..bufferEnd];
      MoveBytes(buffer, offset, bufferEnd - offset);
      bufferEnd := bufferEnd - offset;
      bufferPtr := bufferPtr - offset;
      base := base + offset;
      assert buffer[..bufferEnd] == whole[offset..] == stream[base..];
    }

    /** A bigger buffer: the size doubles until it is enough. */
    method Reallocate(neededSize: int, keep: nat)
      requires Valid() && keep <= bufferPtr && neededSize >= bufferEnd - bufferPtr + keep
      modifies this`buffer, this`bufferPtr, this`bufferEnd, this`base
      ensures Valid() && fresh(buffer) && buffer.Length >= neededSize
      ensures bufferPtr == keep && bufferEnd - bufferPtr == old(bufferEnd - bufferPtr)
      ensures Consumed() == old(Consumed())
    {
      var bufferSize := buffer.Length - bufferPtr;
      if bufferSize == 0 {
        bufferSize := INIT_BUFFER_SIZE;
      }
      bufferSize := bufferSize * 2;
      while bufferSize < neededSize
        invariant bufferSize > 0
        decreases neededSize - bufferSize
      {
        bufferSize := bufferSize * 2;
      }
      var newBuf := new Byte[bufferSize];
      var from := bufferPtr - keep;
      ghost var whole := buffer[..bufferEnd];
      assert buffer[from..bufferEnd] == whole[from..] == stream[base + from..];
      CopyBytes(newBuf, 0, buffer[from..bufferEnd]);
      base := base + from;
      bufferEnd := bufferEnd - from;
      bufferPtr := keep;
      buffer := newBuf;
      assert buffer[..bufferEnd] == buffer[0..0 + bufferEnd];
    }

    /** XML_ParseBuffer, for the len bytes that the caller has stored at bufferEnd. */
    method ParseBuffer(len: nat, isFinal: bool, processed: Processed) returns (status: Status)
      requires Valid() && len <= buffer.Length - bufferEnd
      requires processed.Consumed? ==> processed.bytes <= bufferEnd + len - bufferPtr
      modifies this
      ensures Valid() && buffer == old(buffer)
      ensures old(parsing) == Finished ==> status == StatusError && unchanged(this)
      ensures old(parsing) != Finished ==>
        && stream == old(stream) + old(buffer[bufferEnd..bufferEnd + len])
        && (status == StatusOk <==> !old(failed) && processed.Consumed?)
        && Consumed() == old(Consumed()) + (if status == StatusOk then processed.bytes else 0)
        && parsing == (if status == StatusOk && isFinal then Finished else Parsing)
        && failed == (status == StatusError)
    {
      if parsing == Finished {
        return StatusError;
      }
      parsing := Parsing;
      ghost var fed := buffer[bufferEnd..bufferEnd + len];
      assert buffer[..bufferEnd + len] == buffer[..bufferEnd] + fed;
      assert (stream + fed)[base..] == stream[base..] + fed;
      stream := stream + fed;
      bufferEnd := bufferEnd + len;
      parseEndByteIndex := parseEndByteIndex + len;
      if failed || processed.Failed? {
        failed := true;
        return StatusError;
      }
      bufferPtr := bufferPtr + processed.bytes;
      if isFinal {
        parsing := Finished;
      }
      status := StatusOk;
    }

    /** XML_Parse: get room, copy the piece, parse. Without a piece, only the end of the input is
        news: the processor sees what is left over once more. */
    method Parse(s: seq<Byte>, isFinal: bool, processed: Processed) returns (status: Status)
      requires Valid()
      requires processed.Consumed? ==> processed.bytes <= bufferEnd - bufferPtr + |s|
      modifies this, buffer
      ensures Valid() && (buffer == old(buffer) || fresh(buffer))
      ensures old(parsing) == Finished ==>
        status == StatusError && stream == old(stream) && Consumed() == old(Consumed())
      ensures old(parsing) != Finished ==> stream == old(stream) + s
      ensures old(parsing) != Finished && (s != [] || isFinal) ==>
        && (status == StatusOk <==> !old(failed) && processed.Consumed?)
        && Consumed() == old(Consumed()) + (if status == StatusOk then processed.bytes else 0)
        && (parsing == Finished <==> status == StatusOk && isFinal)
      ensures old(parsing) != Finished && s == [] && !isFinal ==> status == StatusOk && Consumed() == old(Consumed())
    {
      if parsing == Finished {
        return StatusError;
      }
      parsing := Parsing;
      if s == [] {
        status := ParseNothing(isFinal, processed);
        return;
      }
      status := ParsePiece(s, isFinal, processed);
    }

    method ParsePiece(s: seq<Byte>, isFinal: bool, processed: Processed) returns (status: Status)
      requires Valid() && parsing == Parsing
      requires processed.Consumed? ==> processed.bytes <= bufferEnd - bufferPtr + |s|
      modifies this, buffer
      ensures Valid() && (buffer == old(buffer) || fresh(buffer)) && stream == old(stream) + s
      ensures status == StatusOk <==> !old(failed) && processed.Consumed?
      ensures Consumed() == old(Consumed()) + (if status == StatusOk then processed.bytes else 0)
      ensures parsing == Finished <==> status == StatusOk && isFinal
    {
      hide Valid, Consumed;
      var ok := GetBuffer(|s|);
      Fill(s);
      status := ParseBuffer(|s|, isFinal, processed);
    }

    /** memcpy of the piece behind what is there. */
    method Fill(s: seq<Byte>)
      requires Valid() && |s| <= buffer.Length - bufferEnd
      modifies buffer
      ensures Valid() && buffer[bufferEnd..bufferEnd + |s|] == s
    {
      CopyBytes(buffer, bufferEnd, s);
    }

    method ParseNothing(isFinal: bool, processed: Processed) returns (status: Status)
      requires Valid() && (processed.Consumed? ==> processed.bytes <= bufferEnd - bufferPtr)
      modifies this`bufferPtr, this`parsing, this`failed
      ensures Valid()
      ensures isFinal ==>
        && (status == StatusOk <==> !old(failed) && processed.Consumed?)
        && Consumed() == old(Consumed()) + (if status == StatusOk then processed.bytes else 0)
        && parsing == if status == StatusOk then Finished else old(parsing)
      ensures !isFinal ==> status == StatusOk && Consumed() == old(Consumed()) && parsing == old(parsing)
    {
      if !isFinal {
        return StatusOk;
      }
      if failed || processed.Failed? {
        failed := true;
        return StatusError;
      }
      bufferPtr := bufferPtr + processed.bytes;
      parsing := Finished;
      return StatusOk;
    }
  }
}

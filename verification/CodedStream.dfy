// The coded input and output streams the generated messages read from and write to. The
// library's own streams are not part of the repository; these follow its documentation and
// the encoding specification.
module CodedStream {
  import opened Bytes
  import opened Wire

  class CodedInput {
    const buffer: bytes
    var pos: nat
    var limit: nat
    // Whether the last tag read was the end of the input, and not a tag of 0.
    var legitimateEnd: bool

    ghost predicate Valid()
      reads this
    {
      pos <= limit <= |buffer|
    }

    // What is left to read.
    function Rest(): bytes
      reads this
      requires Valid()
    {
      buffer[pos..limit]
    }

    constructor (b: bytes)
      ensures Valid() && Rest() == b && buffer == b && pos == 0 && limit == |b|
    {
      buffer, pos, limit, legitimateEnd := b, 0, |b|, false;
    }

    // The tag of the field at `start` has been read, and nothing after it.
    ghost predicate TagRead(start: nat, tag: u32)
      reads this
    {
      Valid() && start <= pos && ReadTag(buffer[start..limit]) == (tag, pos - start)
    }

    // The field at `start` has been read, and nothing after it.
    ghost predicate FieldRead(start: nat, field: Field)
      reads this
    {
      && Valid() && start < pos && NextField(buffer[start..limit]) == Got(field, pos - start)
      && buffer[start..limit][pos - start..] == Rest()
    }

    // The next tag, 0 at the end of the input, and whether it is known to be within the cutoff.
    method ReadTagWithCutoff(cutoff: u32) returns (tag: u32, within: bool)
      requires Valid()
      modifies this
      ensures TagRead(old(pos), tag) && limit == old(limit)
      ensures legitimateEnd <==> old(pos) == limit
      ensures within ==> tag <= cutoff
      ensures !within ==> tag > cutoff || tag == 0
    {
      var r := ReadTag(Rest());
      legitimateEnd := pos == limit;
      tag, within := r.0, r.0 <= cutoff;
      pos := pos + r.1;
    }

    // Consumes the given one-byte tag if it comes next. The answer may be no although it
    // does, when it is not yet in the buffer of the underlying stream.
    method ExpectTag(tag: byte) returns (matched: bool)
      requires Valid() && 0 < tag < 128
      modifies this
      ensures Valid() && limit == old(limit) && legitimateEnd == old(legitimateEnd)
      ensures if matched then TagRead(old(pos), tag) else pos == old(pos)
    {
      var buffered: bool := *;
      matched := buffered && pos < limit && buffer[pos] == tag;
      if matched {
        pos := pos + 1;
      }
    }

    // Whether the input is known to be at its end; the answer may be no although it is.
    method ExpectAtEnd() returns (end: bool)
      requires Valid()
      modifies this
      ensures Valid() && limit == old(limit) && pos == old(pos)
      ensures end ==> pos == limit && legitimateEnd
      ensures !end ==> legitimateEnd == old(legitimateEnd)
    {
      var buffered: bool := *;
      end := buffered && pos == limit;
      if end {
        legitimateEnd := true;
      }
    }

    method ReadVarint64(ghost start: nat, ghost tag: u32) returns (ok: bool, v: u64)
      requires TagRead(start, tag) && tag != 0 && tag % 8 == 0
      modifies this
      ensures Valid() && limit == old(limit) && old(pos) <= pos && legitimateEnd == old(legitimateEnd)
      ensures if ok then FieldRead(start, Field(tag / 8, Varint(v))) else NextField(buffer[start..limit]).Broken?
    {
      ValueAt(start, tag);
      match DecodeVarint(Rest(), MAX_VARINT)
      case None => return false, 0;
      case Some((n, size)) =>
        pos := pos + size;
        return true, n % TWO64;
    }

    // The length of a length-delimited value, if that much input is left.
    method ReadLength(ghost start: nat, ghost tag: u32) returns (ok: bool, length: nat)
      requires TagRead(start, tag) && tag % 8 == 2
      modifies this
      ensures Valid() && limit == old(limit) && old(pos) <= pos && legitimateEnd == old(legitimateEnd)
      ensures !ok ==> NextField(buffer[start..limit]).Broken?
      ensures ok ==> length <= limit - pos && start < pos
      ensures ok ==>
                NextField(buffer[start..limit])
                    == Got(Field(tag / 8, Len(buffer[pos..pos + length])), pos + length - start)
    {
      hide NextField, ReadTag, DecodeVarint;
      ValueAt(start, tag);
      match DecodeVarint(Rest(), MAX_VARINT)
      case None => return false, 0;
      case Some((n, size)) =>
        length := n % TWO32;
        pos := pos + size;
        ok := length < TWO31 && length <= limit - pos;
        if ok { SliceOfSlice(buffer, old(pos), limit, size, size + length); }
    }

    method ReadString(ghost start: nat, ghost tag: u32) returns (ok: bool, data: bytes)
      requires TagRead(start, tag) && tag % 8 == 2
      modifies this
      ensures Valid() && limit == old(limit) && old(pos) <= pos && legitimateEnd == old(legitimateEnd)
      ensures if ok then FieldRead(start, Field(tag / 8, Len(data))) else NextField(buffer[start..limit]).Broken?
    {
      hide NextField;
      var length;
      ok, length := ReadLength(start, tag);
      data := [];
      if ok {
        data := buffer[pos..pos + length];
        pos := pos + length;
      }
    }

    // A field nobody knows, to be kept.
    method SkipField(ghost start: nat, tag: u32) returns (ok: bool, field: Field)
      requires TagRead(start, tag) && tag != 0 && tag % 8 != 4
      modifies this
      ensures Valid() && limit == old(limit) && old(pos) <= pos && legitimateEnd == old(legitimateEnd)
      ensures if ok then FieldRead(start, field) && Tag(field) == tag else NextField(buffer[start..limit]).Broken?
    {
      ValueAt(start, tag);
      match ReadValue(tag / 8, tag % 8, Rest())
      case None => return false, Field(0, Len([]));
      case Some((v, size)) =>
        pos := pos + size;
        return true, Field(tag / 8, v);
    }

    // A field is its tag and the value that follows.
    lemma ValueAt(start: nat, tag: u32)
      requires TagRead(start, tag) && tag != 0 && tag % 8 != 4
      ensures var r := ReadValue(tag / 8, tag % 8, Rest());
              NextField(buffer[start..limit])
              == if r.None? then Broken else Got(Field(tag / 8, r.value.0), pos - start + r.value.1)
    {
      assert buffer[start..limit][pos - start..] == Rest();
    }
  }

  class CodedOutput {
    var out: bytes

    constructor ()
      ensures out == []
    {
      out := [];
    }

    method Write(data: bytes)
      modifies this
      ensures out == old(out) + data
    {
      out := out + data;
    }
  }

  // Writes data into the array at pos, and returns the position after it.
  method WriteToArray(target: array<byte>, pos: nat, data: bytes) returns (end: nat)
    requires pos + |data| <= target.Length
    modifies target
    ensures end == pos + |data|
    ensures target[..end] == old(target[..pos]) + data
    ensures forall i :: end <= i < target.Length ==> target[i] == old(target[i])
  {
    end := pos;
    while end < pos + |data|
      invariant pos <= end <= pos + |data|
      invariant target[..end] == old(target[..pos]) + data[..end - pos]
      invariant forall i :: end <= i < target.Length ==> target[i] == old(target[i])
    {
      target[end] := data[end - pos];
      end := end + 1;
    }
    assert data[..end - pos] == data;
  }

  // A field on the output, if it is present.
  method WriteField(present: bool, f: Field, output: CodedOutput)
    modifies output
    ensures output.out == old(output.out) + if present then EncodeField(f) else []
  {
    if present { output.Write(EncodeField(f)); }
  }

  method WriteFieldToArray(present: bool, f: Field, target: array<byte>, pos: nat) returns (end: nat)
    requires pos + (if present then |EncodeField(f)| else 0) <= target.Length
    modifies target
    ensures end <= target.Length && target[..end] == old(target[..pos]) + if present then EncodeField(f) else []
    ensures forall i :: end <= i < target.Length ==> target[i] == old(target[i])
  {
    end := pos;
    if present { end := WriteToArray(target, pos, EncodeField(f)); }
  }
}

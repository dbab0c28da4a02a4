/**
 A file of the in-memory file system: a zero-padded buffer that grows by doubling, then by an
 eighth, against the sequence of bytes it stands for.
 */
module MemFile {
  newtype byte = x: int | 0 <= x < 256

  const DOUBLING_MAX: nat := 1024 * 1024
  const MINIMUM: nat := 256
  const TWO32: nat := 0x1_0000_0000

  function Max(a: nat, b: nat): nat { if a < b then b else a }
  function Min(a: nat, b: nat): nat { if a < b then a else b }

  // ----- The bytes a file stands for -----

  function ByteAt(s: seq<byte>, i: nat): byte { if i < |s| then s[i] else 0 }

  /** `old` with `data` at `position`, at least `position + length` long, holes filled with zeros. */
  function WriteAt(bytes: seq<byte>, data: seq<byte>, position: nat, length: nat): (r: seq<byte>)
    ensures |r| == Max(|bytes|, position + length)
  {
    seq(Max(|bytes|, position + length), (i: nat) =>
      if position <= i < position + |data| then data[i - position] else ByteAt(bytes, i))
  }

  function Written(bytes: seq<byte>, data: seq<byte>, position: nat, length: nat): seq<byte> {
    if length == 0 then bytes else WriteAt(bytes, data, position, length)
  }

  function Truncated(bytes: seq<byte>, size: nat): (r: seq<byte>)
    ensures |r| == size
  {
    seq(size, (i: nat) => ByteAt(bytes, i))
  }

  function Slice(s: seq<byte>, position: nat, length: nat): seq<byte> {
    if position >= |s| then [] else s[position..position + Min(|s| - position, length)]
  }

  /** A typed array's `subarray` and `slice` clamp their bounds. */
  function Clamped(buffer: seq<byte>, offset: nat, length: nat): (r: seq<byte>)
    ensures |r| <= length
    ensures offset + length <= |buffer| ==> |r| == length
    ensures offset + |r| <= |buffer| || r == []
    ensures forall i :: 0 <= i < |r| ==> r[i] == buffer[offset + i]
    ensures |r| < length ==> offset + |r| >= |buffer|
  {
    buffer[Min(offset, |buffer|)..Min(offset + length, |buffer|)]
  }

  // ----- How the buffer grows -----

  /** `expandFileStorage`'s new capacity; the growth term is cut to 32 bits. */
  function Grown(capacity: nat, wanted: nat): nat {
    var step := (if capacity < DOUBLING_MAX then capacity * 2 else capacity * 9 / 8) % TWO32;
    var c := Max(wanted, step);
    if capacity != 0 then Max(c, MINIMUM) else c
  }

  /** Sizes only: capacity, bytes in use, and bytes copied by growing so far. */
  datatype Sizes = Sizes(capacity: nat, used: nat, copied: nat)

  function Expanded(s: Sizes, wanted: nat): Sizes {
    if s.capacity >= wanted then s
    else Sizes(Grown(s.capacity, wanted), s.used, s.copied + s.used)
  }

  function AfterWrite(s: Sizes, position: nat, length: nat): Sizes {
    if length == 0 then s
    else if s.used == 0 && position == 0 then Sizes(length, length, s.copied)
    else
      var e := Expanded(s, position + length);
      e.(used := Max(s.used, position + length))
  }

  class MemFile {
    var contents: array<byte>
    var usedBytes: nat
    ghost var copied: nat

    constructor ()
      ensures Valid() && Bytes() == [] && SizesNow() == Sizes(0, 0, 0) && fresh(contents)
    {
      contents := new byte[0];
      usedBytes, copied := 0, 0;
    }

    ghost predicate Valid()
      reads this, contents
    {
      && usedBytes <= contents.Length
      && forall i :: usedBytes <= i < contents.Length ==> contents[i] == 0
    }

    ghost function Bytes(): seq<byte>
      requires usedBytes <= contents.Length
      reads this, contents
    {
      contents[..usedBytes]
    }

    ghost function SizesNow(): Sizes
      reads this
    {
      Sizes(contents.Length, usedBytes, copied)
    }

    method ExpandFileStorage(newCapacity: nat)
      requires Valid()
      modifies this`contents, this`copied
      ensures Valid() && Bytes() == old(Bytes()) && SizesNow() == Expanded(old(SizesNow()), newCapacity)
      ensures contents.Length >= newCapacity
      ensures contents == old(contents) || fresh(contents)
    {
      var prevCapacity := contents.Length;
      if prevCapacity >= newCapacity {
        return;
      }
      var wanted := if prevCapacity < DOUBLING_MAX then prevCapacity * 2 else prevCapacity * 9 / 8;
      var capacity := Max(newCapacity, wanted % TWO32);
      if prevCapacity != 0 {
        capacity := Max(capacity, MINIMUM);
      }
      var oldContents := contents;
      var grown := new byte[capacity](_ => 0);
      forall i | 0 <= i < usedBytes {
        grown[i] := oldContents[i];
      }
      contents := grown;
      copied := copied + usedBytes;
    }

    method ResizeFileStorage(newSize: nat)
      requires Valid()
      modifies this`contents, this`usedBytes
      ensures Valid() && Bytes() == Truncated(old(Bytes()), newSize)
      ensures contents == old(contents) || fresh(contents)
    {
      if usedBytes == newSize {
        assert Bytes() == Truncated(Bytes(), newSize);
        return;
      }
      var oldContents := contents;
      var resized := new byte[newSize](_ => 0);
      forall i | 0 <= i < Min(newSize, usedBytes) {
        resized[i] := oldContents[i];
      }
      contents := resized;
      usedBytes := newSize;
    }

    /**
     Writes keep the padding zero and act on the bytes as `WriteAt` does, with one exception: a
     first write at position 0 that asks for more than its buffer holds.
     */
    method Write(buffer: seq<byte>, offset: nat, length: nat, position: nat) returns (written: nat)
      requires Valid()
      modifies this, contents
      ensures written == length
      ensures Valid() <==> !Overruns(old(usedBytes), buffer, offset, length, position)
      ensures Valid() ==> Bytes() == Written(old(Bytes()), Clamped(buffer, offset, length), position, length)
      ensures !Overruns(old(usedBytes), buffer, offset, length, position) ==>
                SizesNow() == AfterWrite(old(SizesNow()), position, length)
      ensures contents == old(contents) || fresh(contents)
    {
      if length == 0 {
        return 0;
      }
      var data := Clamped(buffer, offset, length);
      if usedBytes == 0 && position == 0 {
        contents := new byte[|data|](i requires 0 <= i < |data| => data[i]);
        usedBytes := length;
        assert |data| == length ==> Bytes() == WriteAt([], data, 0, length);
      } else {
        ExpandFileStorage(position + length);
        ghost var before := contents[..];
        forall i | 0 <= i < |data| {
          contents[position + i] := data[i];
        }
        usedBytes := Max(usedBytes, position + length);
        assert Bytes() == WriteAt(old(Bytes()), data, position, length);
      }
      written := length;
    }

    static predicate Overruns(used: nat, buffer: seq<byte>, offset: nat, length: nat, position: nat) {
      used == 0 && position == 0 && |Clamped(buffer, offset, length)| < length
    }

    /** Copies into `buffer`; throws when the bytes do not fit there. */
    method Read(buffer: array<byte>, offset: nat, length: nat, position: nat) returns (read: nat, fits: bool)
      requires Valid() && buffer != contents
      modifies buffer
      ensures var s := Slice(Bytes(), position, length);
              && (fits <==> position >= usedBytes || offset + |s| <= buffer.Length)
              && (fits ==> read == |s|)
              && (!fits ==> read == 0)
              && buffer[..] == if fits && s != [] then old(buffer[..offset]) + s + old(buffer[offset + |s|..])
                               else old(buffer[..])
    {
      if position >= usedBytes {
        return 0, true;
      }
      var size := Min(usedBytes - position, length);
      if offset + size > buffer.Length {
        return 0, false;
      }
      forall i | 0 <= i < size {
        buffer[offset + i] := contents[position + i];
      }
      return size, true;
    }
  }

  // ----- What writing means for reading -----

  lemma ReadBack(bytes: seq<byte>, data: seq<byte>, position: nat)
    requires data != []
    ensures Slice(WriteAt(bytes, data, position, |data|), position, |data|) == data
    ensures forall i :: |bytes| <= i < position ==> WriteAt(bytes, data, position, |data|)[i] == 0
    ensures forall i :: 0 <= i < |bytes| && !(position <= i < position + |data|) ==>
              WriteAt(bytes, data, position, |data|)[i] == bytes[i]
  {
  }

  /** The bytes of a file after a write within its buffer, each from its place in the caller's buffer. */
  lemma WrittenBytes(bytes: seq<byte>, buffer: seq<byte>, offset: nat, length: nat, position: nat, i: nat)
    requires length > 0 && offset + length <= |buffer| && i < Max(|bytes|, position + length)
    ensures var now := Written(bytes, Clamped(buffer, offset, length), position, length);
            && |now| == Max(|bytes|, position + length)
            && now[i] == if position <= i < position + length then buffer[offset + (i - position)]
                         else if i < |bytes| then bytes[i] else 0
  {
  }

  /** Reading what was just written gives the caller's own bytes back. */
  lemma WrittenThenRead(bytes: seq<byte>, buffer: seq<byte>, offset: nat, length: nat, position: nat)
    requires length > 0 && offset + length <= |buffer|
    ensures Slice(Written(bytes, Clamped(buffer, offset, length), position, length), position, length)
         == buffer[offset..offset + length]
  {
  }

  /** Truncating keeps the front and fills up with zeros. */
  lemma TruncatedBytes(bytes: seq<byte>, size: nat, i: nat)
    requires i < size
    ensures Truncated(bytes, size)[i] == if i < |bytes| then bytes[i] else 0
  {
  }

  // ----- Growing is cheap in the long run -----

  /**
   Up to 1 MiB, where the buffer doubles, no more was copied than there is room for; beyond, nine times
   that. At most half of the room is unused, past 2 MiB at most a ninth.
   */
  ghost predicate Amortised(s: Sizes) {
    && s.used <= s.capacity
    && s.copied <= 9 * s.capacity
    && (s.capacity <= 0x10_0000 ==> s.copied <= s.capacity)
    && (s.used == 0 ==> s.copied == 0)
    && s.capacity <= Max(256, 2 * s.used)
    && (s.capacity > 0x20_0000 ==> 8 * s.capacity <= 9 * s.used)
  }

  lemma WriteAmortised(s: Sizes, position: nat, length: nat)
    requires Amortised(s) && s.capacity * 9 / 8 < TWO32
    ensures Amortised(AfterWrite(s, position, length))
  {
    var c := s.capacity;
    var step := if c < DOUBLING_MAX then c * 2 else c * 9 / 8;
    assert step % TWO32 == step;
    assert c >= DOUBLING_MAX ==> 8 * step >= 9 * c - 7;
    assert 9 * step >= 10 * c;
    assert step <= 2 * c;
  }

  function AfterWrites(s: Sizes, writes: seq<(nat, nat)>): Sizes {
    if writes == [] then s
    else
      var last := writes[|writes| - 1];
      AfterWrite(AfterWrites(s, writes[..|writes| - 1]), last.0, last.1)
  }

  /**
   Over any run of writes to a new file whose buffer stays below the 32-bit limit, growing has
   copied at most nine bytes per byte of capacity, and capacity stays within twice the file.
   */
  lemma {:induction false} RunAmortised(writes: seq<(nat, nat)>)
    requires forall n :: 0 <= n < |writes| ==> AfterWrites(Sizes(0, 0, 0), writes[..n]).capacity * 9 / 8 < TWO32
    ensures Amortised(AfterWrites(Sizes(0, 0, 0), writes))
  {
    if writes != [] {
      var n := |writes| - 1;
      assert forall k :: 0 <= k < n ==> writes[..n][..k] == writes[..k];
      RunAmortised(writes[..n]);
      WriteAmortised(AfterWrites(Sizes(0, 0, 0), writes[..n]), writes[n].0, writes[n].1);
    }
  }
}

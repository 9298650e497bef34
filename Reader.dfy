/** The message view of tinyosc: parseMessage points it at a message, the
    getNext* readers advance its read head over the arguments, reset
    rewinds the head. The view only reads the message bytes. */
module Reader {
  import opened Wire
  import opened OscMessage

  /** The index of the first NUL in b at or after from, or |b| when there is
      none (strlen, bounded by the end of the message). */
  method FindNul(b: seq<byte>, from: nat) returns (k: nat)
    requires from <= |b|
    ensures k == NulFrom(b, from)
  {
    k := from;
    while k < |b| && b[k] != 0
      invariant from <= k <= |b|
      invariant forall j | from <= j < k :: b[j] != 0
    {
      k := k + 1;
    }
    NulFromUnique(b, from, k);
  }

  /** The unsigned big-endian value of b[from..from + n] (ntohl, ntohll). */
  method ReadBigEndian(b: seq<byte>, from: nat, n: nat) returns (w: nat)
    requires from + n <= |b|
    ensures w == FromBigEndian(b[from..from + n])
  {
    w := 0;
    for i := from to from + n
      invariant w == FromBigEndian(b[from..i])
    {
      assert b[from..i + 1][..i - from] == b[from..i];
      w := w * 256 + b[i] as int;
    }
  }

  class Message {
    var buffer: seq<byte>  // the message, from its first byte
    var len: nat           // the message length in bytes
    var format: nat        // the first type tag, just after ','
    var marker: nat        // the read head
    ghost var header: Header

    /** An empty view, not yet pointed at a message. */
    constructor ()
      ensures buffer == [] && len == 0 && format == 0 && marker == 0
    {
      buffer, len, format, marker := [], 0, 0, 0;
    }

    /** The view holds a message with a well-formed header, and format
        points at its type tags. */
    ghost predicate Parsed()
      reads this`buffer, this`len, this`format, this`header
    {
      len == |buffer| && ParseHeader(buffer) == Ok(header) && format == header.format
    }

    /** A parsed view whose read head lies between the first argument and the end. */
    ghost predicate Valid()
      reads this
    {
      Parsed() && header.args <= marker <= len
    }

    /** Where the first argument starts. */
    ghost function FirstArgument(): (p: nat)
      reads this`buffer, this`len, this`format, this`header
      requires Parsed()
      ensures format <= p <= len
    {
      header.args
    }

    /** parseMessage: 0 and the view pointed at buf[..n] when it holds a
        message header, with the read head on the first argument; otherwise
        the negative code of what is wrong and the view unchanged. */
    method Parse(buf: seq<byte>, n: nat) returns (code: int)
      requires n <= |buf|
      modifies this
      ensures code == 0 <==> ParseHeader(buf[..n]).Ok?
      ensures code == 0 ==> buffer == buf[..n] && Valid() && marker == FirstArgument()
      ensures code != 0 ==> code == ErrorCode(ParseHeader(buf[..n]).error) && unchanged(this)
    {
      var b := buf[..n];
      var a := FindNul(b, 0);
      if a == n || b[0] != Slash {
        return ErrorCode(MalformedAddress);
      }
      var f := Pad4(a + 1);
      if f >= n || b[f] != Comma {
        return ErrorCode(MissingTypeTags);
      }
      var e := FindNul(b, f + 1);
      if e == n || Pad4(e + 1) > n {
        return ErrorCode(MalformedTypeTags);
      }
      buffer, len, format, marker := b, n, f + 1, Pad4(e + 1);
      header := Header(f + 1, Pad4(e + 1));
      code := 0;
    }

    /** getAddress: the address the message starts with. */
    function Address(): (s: seq<byte>)
      reads this`buffer, this`len, this`format, this`header
      requires Parsed()
      ensures ValidAddress(s) && |s| < len && buffer[..|s|] == s && buffer[|s|] == 0
    {
      AddressOf(buffer)
    }

    /** getFormat: the type tags, without the ',' in front of them. */
    function Format(): (s: seq<byte>)
      reads this`buffer, this`len, this`format, this`header
      requires Parsed()
      ensures NoNul(s) && 0 < format && format + |s| < len && buffer[format - 1] == Comma
      ensures buffer[format..format + |s|] == s && buffer[format + |s|] == 0
    {
      TypeTagsOf(buffer)
    }

    /** getLength: the message length in bytes; the smallest message, "/"
        with no type tags, takes 8. */
    function Length(): (l: nat)
      reads this`buffer, this`len, this`format, this`header
      requires Parsed()
      ensures l == |buffer| && 8 <= l
    {
      assert 4 <= format - 1 && format <= NulFrom(buffer, format);
      len
    }

    /** getNextInt32: the big-endian two's complement word at the read head.
        The bounds are the caller's to check. */
    method GetNextInt32() returns (v: int32)
      requires Valid() && marker + 4 <= len
      modifies this`marker
      ensures Valid() && marker == old(marker) + 4
      ensures DecodeArg(TagInt32, buffer, old(marker)) == Some((Int32(v), marker))
    {
      var w := ReadBigEndian(buffer, marker, 4);
      Word4At(buffer, marker, w);
      v := WordToInt32(w);
      marker := marker + 4;
    }

    /** getNextFloat: the 32-bit IEEE-754 pattern at the read head. The
        bounds are the caller's to check. */
    method GetNextFloat() returns (bits: uint32)
      requires Valid() && marker + 4 <= len
      modifies this`marker
      ensures Valid() && marker == old(marker) + 4
      ensures DecodeArg(TagFloat32, buffer, old(marker)) == Some((Float32(bits), marker))
    {
      bits := ReadBigEndian(buffer, marker, 4);
      Word4At(buffer, marker, bits);
      marker := marker + 4;
    }

    /** getNextInt64: the big-endian two's complement double word at the read
        head. The bounds are the caller's to check. */
    method GetNextInt64() returns (v: int64)
      requires Valid() && marker + 8 <= len
      modifies this`marker
      ensures Valid() && marker == old(marker) + 8
      ensures DecodeArg(TagInt64, buffer, old(marker)) == Some((Int64(v), marker))
    {
      var w := ReadBigEndian(buffer, marker, 8);
      Word8At(buffer, marker, w);
      v := WordToInt64(w);
      marker := marker + 8;
    }

    /** getNextDouble: the 64-bit IEEE-754 pattern at the read head. The
        bounds are the caller's to check. */
    method GetNextDouble() returns (bits: uint64)
      requires Valid() && marker + 8 <= len
      modifies this`marker
      ensures Valid() && marker == old(marker) + 8
      ensures DecodeArg(TagFloat64, buffer, old(marker)) == Some((Float64(bits), marker))
    {
      bits := ReadBigEndian(buffer, marker, 8);
      Word8At(buffer, marker, bits);
      marker := marker + 8;
    }

    /** getNextTimetag: the 64-bit NTP timetag at the read head. The bounds
        are the caller's to check. */
    method GetNextTimetag() returns (t: uint64)
      requires Valid() && marker + 8 <= len
      modifies this`marker
      ensures Valid() && marker == old(marker) + 8
      ensures DecodeArg(TagTimetag, buffer, old(marker)) == Some((Timetag(t), marker))
    {
      t := ReadBigEndian(buffer, marker, 8);
      Word8At(buffer, marker, t);
      marker := marker + 8;
    }

    /** getNextMidi: the four MIDI bytes at the read head: port id, status
        byte, data1, data2. The bounds are the caller's to check. */
    method GetNextMidi() returns (m: seq<byte>)
      requires Valid() && marker + 4 <= len
      modifies this`marker
      ensures Valid() && marker == old(marker) + 4 && |m| == 4
      ensures DecodeArg(TagMidi, buffer, old(marker)) == Some((Midi(m[0], m[1], m[2], m[3]), marker))
    {
      Word4At(buffer, marker, FromBigEndian(buffer[marker..marker + 4]));
      m := buffer[marker..marker + 4];
      marker := marker + 4;
    }

    /** getNextString: the C string at the read head, and the head moved past
        its padding; None, and the head left alone, when no NUL ends it or
        its padding would run past the end of the message. */
    method GetNextString() returns (r: Option<seq<byte>>)
      requires Valid()
      modifies this`marker
      ensures Valid()
      ensures match DecodeString(buffer, old(marker))
              case None => r == None && marker == old(marker)
              case Some((a, next)) => r == Some(a.s) && marker == next
    {
      var k := FindNul(buffer, marker);
      if k == len || marker + Pad4(k - marker + 1) > len {
        return None;
      }
      r := Some(buffer[marker..k]);
      marker := marker + Pad4(k - marker + 1);
    }

    /** getNextBlob: the blob at the read head and its length, and the head
        moved past its padding; None and 0, and the head left alone, when
        the length prefix or the padded payload would run past the end of
        the message. */
    method GetNextBlob() returns (r: Option<seq<byte>>, n: nat)
      requires Valid()
      modifies this`marker
      ensures Valid()
      ensures match DecodeBlob(buffer, old(marker))
              case None => r == None && n == 0 && marker == old(marker)
              case Some((a, next)) => r == Some(a.data) && n == |a.data| && marker == next
    {
      if marker + 4 > len {
        return None, 0;
      }
      var size := ReadBigEndian(buffer, marker, 4);
      if marker + 4 + Pad4(size) > len {
        return None, 0;
      }
      r, n := Some(buffer[marker + 4..marker + 4 + size]), size;
      marker := marker + 4 + Pad4(size);
    }

    /** reset: the read head back on the first argument, found from the end
        of the type tags; returns the same view. */
    method Reset() returns (m: Message)
      requires Valid()
      modifies this`marker
      ensures m == this && Valid() && marker == FirstArgument()
    {
      var e := FindNul(buffer, format);
      Pad4Shift(format - 1, e - format + 2);
      marker := format - 1 + Pad4(e - format + 2);
      m := this;
    }

    /** The argument with type tag `tag` at the read head, read with the
        matching getNext* after the bounds check the fixed-size readers
        leave to their caller; None, and the head left alone, when it cannot
        be read. */
    method GetNext(tag: byte) returns (r: Option<OscArg>)
      requires Valid()
      modifies this`marker
      ensures Valid()
      ensures match DecodeArg(tag, buffer, old(marker))
              case None => r == None && marker == old(marker)
              case Some((a, next)) => r == Some(a) && marker == next
    {
      var room := len - marker;
      if tag == TagString {
        var s := GetNextString();
        r := if s.Some? then Some(Str(s.value)) else None;
      } else if tag == TagBlob {
        var d, _ := GetNextBlob();
        r := if d.Some? then Some(Blob(d.value)) else None;
      } else if tag == TagInt32 && room >= 4 {
        var v := GetNextInt32();
        r := Some(Int32(v));
      } else if tag == TagFloat32 && room >= 4 {
        var bits := GetNextFloat();
        r := Some(Float32(bits));
      } else if tag == TagMidi && room >= 4 {
        var m := GetNextMidi();
        r := Some(Midi(m[0], m[1], m[2], m[3]));
      } else if tag == TagInt64 && room >= 8 {
        var v := GetNextInt64();
        r := Some(Int64(v));
      } else if tag == TagFloat64 && room >= 8 {
        var bits := GetNextDouble();
        r := Some(Float64(bits));
      } else if tag == TagTimetag && room >= 8 {
        var t := GetNextTimetag();
        r := Some(Timetag(t));
      } else {
        r := None;
      }
    }

    /** One pass over the arguments in type-tag order from the first
        argument: the values DecodeArgs finds there. */
    method ReadArguments() returns (r: Option<seq<OscArg>>)
      requires Valid() && marker == FirstArgument()
      modifies this`marker
      ensures Valid()
      ensures r == DecodeArgs(Format(), buffer, FirstArgument())
    {
      var tags := Format();
      ghost var p0 := marker;
      var acc: seq<OscArg> := [];
      assert tags[0..] == tags;
      PrefixedEmpty(DecodeArgs(tags, buffer, p0));
      for k := 0 to |tags|
        invariant Valid()
        invariant DecodeArgs(tags, buffer, p0) == Prefixed(acc, DecodeArgs(tags[k..], buffer, marker))
      {
        ghost var pos := marker;
        var a := GetNext(tags[k]);
        if a.None? {
          ReadFails(tags, k, buffer, pos, acc);
          return None;
        }
        ReadStep(tags, k, buffer, pos, acc, a.value, marker);
        acc := acc + [a.value];
      }
      assert tags[|tags|..] == [] && acc + [] == acc;
      r := Some(acc);
    }

    /** reset makes a second pass over the arguments read the same values as
        the first. */
    method ReadTwice() returns (first: Option<seq<OscArg>>, second: Option<seq<OscArg>>)
      requires Valid() && marker == FirstArgument()
      modifies this`marker
      ensures Valid()
      ensures first == second == DecodeArgs(Format(), buffer, FirstArgument())
    {
      first := ReadArguments();
      var m := Reset();
      second := m.ReadArguments();
    }
  }

  /** The 4-byte arguments at pos, from the big-endian word there. */
  lemma Word4At(b: seq<byte>, pos: nat, w: nat)
    requires pos + 4 <= |b| && w == FromBigEndian(b[pos..pos + 4])
    ensures w < TWO32
    ensures DecodeArg(TagInt32, b, pos) == Some((Int32(WordToInt32(w)), pos + 4))
    ensures DecodeArg(TagFloat32, b, pos) == Some((Float32(w), pos + 4))
    ensures DecodeArg(TagMidi, b, pos) == Some((Midi(b[pos], b[pos + 1], b[pos + 2], b[pos + 3]), pos + 4))
  {
    Pow256Widths();
  }

  /** The 8-byte arguments at pos, from the big-endian double word there. */
  lemma Word8At(b: seq<byte>, pos: nat, w: nat)
    requires pos + 8 <= |b| && w == FromBigEndian(b[pos..pos + 8])
    ensures w < TWO64
    ensures DecodeArg(TagInt64, b, pos) == Some((Int64(WordToInt64(w)), pos + 8))
    ensures DecodeArg(TagFloat64, b, pos) == Some((Float64(w), pos + 8))
    ensures DecodeArg(TagTimetag, b, pos) == Some((Timetag(w), pos + 8))
  {
    Pow256Widths();
  }

  /** DecodeArgs on the type tags from the k-th: the k-th argument, then the rest. */
  lemma ArgsAhead(tags: seq<byte>, k: nat, b: seq<byte>, pos: nat)
    requires k < |tags| && pos <= |b|
    ensures DecodeArgs(tags[k..], b, pos) ==
            match DecodeArg(tags[k], b, pos)
            case None => None
            case Some((a, next)) => Prefixed([a], DecodeArgs(tags[k + 1..], b, next))
  {
    assert tags[k..][0] == tags[k] && tags[k..][1..] == tags[k + 1..];
  }

  /** Reading one more argument moves it from what is left to read to what
      has been read. */
  lemma ReadStep(tags: seq<byte>, k: nat, b: seq<byte>, pos: nat, acc: seq<OscArg>, a: OscArg, next: nat)
    requires k < |tags| && pos <= |b| && next <= |b|
    requires DecodeArg(tags[k], b, pos) == Some((a, next))
    ensures Prefixed(acc, DecodeArgs(tags[k..], b, pos)) == Prefixed(acc + [a], DecodeArgs(tags[k + 1..], b, next))
  {
    ArgsAhead(tags, k, b, pos);
    PrefixedStep(acc, a, DecodeArgs(tags[k + 1..], b, next));
  }

  /** An argument that cannot be read ends the pass with nothing. */
  lemma ReadFails(tags: seq<byte>, k: nat, b: seq<byte>, pos: nat, acc: seq<OscArg>)
    requires k < |tags| && pos <= |b|
    requires DecodeArg(tags[k], b, pos) == None
    ensures Prefixed(acc, DecodeArgs(tags[k..], b, pos)) == None
  {
    ArgsAhead(tags, k, b, pos);
  }

  /** acc in front of the values of r, or None when r is None. */
  function Prefixed(acc: seq<OscArg>, r: Option<seq<OscArg>>): Option<seq<OscArg>>
  {
    match r
    case None => None
    case Some(rest) => Some(acc + rest)
  }

  lemma PrefixedEmpty(r: Option<seq<OscArg>>)
    ensures Prefixed([], r) == r
  {
    if r.Some? {
      assert [] + r.value == r.value;
    }
  }

  lemma PrefixedStep(acc: seq<OscArg>, a: OscArg, r: Option<seq<OscArg>>)
    ensures Prefixed(acc, Prefixed([a], r)) == Prefixed(acc + [a], r)
  {
    if r.Some? {
      assert acc + ([a] + r.value) == acc + [a] + r.value;
    }
  }
}

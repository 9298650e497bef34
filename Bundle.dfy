/** OSC bundles as tinyosc handles them: the tag "#bundle" and its NUL, an
    8-byte timetag, then the elements, each a 4-byte big-endian size and the
    message itself (section "OSC Bundles" of the Open Sound Control 1.0
    specification). The writer appends messages at its write head; the
    reader hands them one at a time to a message view. */
module OscBundle {
  import opened Wire
  import opened OscMessage
  import opened Writer
  import opened Reader

  /** "#bundle" and its NUL terminator. */
  const BundleTag: seq<byte> := [0x23, 0x62, 0x75, 0x6E, 0x64, 0x6C, 0x65, 0x00]

  /** The tag and the timetag: the bytes before the first element. */
  const HeaderSize: nat := 16

  /** isBundle: the bytes start with the bundle tag. A bundle is never
      taken for a message: its first byte is '#', not '/'. */
  predicate IsBundle(b: seq<byte>)
    ensures IsBundle(b) ==> ParseHeader(b) == Err(MalformedAddress)
  {
    |b| >= 8 && b[..8] == BundleTag
  }

  /** Every element's size fits the 4-byte size field. */
  predicate AllFit(es: seq<seq<byte>>)
  {
    forall i | 0 <= i < |es| :: |es[i]| < TWO32
  }

  /** One element: its 4-byte big-endian size, then its bytes. */
  function Frame(m: seq<byte>): (r: seq<byte>)
    requires |m| < TWO32
    ensures |r| == 4 + |m|
  {
    ToBigEndian(|m|, 4) + m
  }

  /** The bytes all the elements take, sizes included. */
  function FramedLength(es: seq<seq<byte>>): nat
  {
    if es == [] then 0 else FramedLength(es[..|es| - 1]) + 4 + |es[|es| - 1]|
  }

  /** The elements one after the other, in the order they were written. */
  function Frames(es: seq<seq<byte>>): (r: seq<byte>)
    requires AllFit(es)
    ensures |r| == FramedLength(es)
  {
    if es == [] then [] else Frames(es[..|es| - 1]) + Frame(es[|es| - 1])
  }

  /** The whole bundle with timetag t and elements es. */
  function EncodeBundle(t: uint64, es: seq<seq<byte>>): (r: seq<byte>)
    requires AllFit(es)
    ensures |r| == HeaderSize + FramedLength(es)
  {
    BundleTag + ToBigEndian(t, 8) + Frames(es)
  }

  /** getTimetag: the big-endian timetag after the bundle tag. */
  function BundleTime(b: seq<byte>): (t: uint64)
    requires |b| >= HeaderSize
    ensures ToBigEndian(t, 8) == b[8..16]
  {
    Pow256Widths();
    ToFromBigEndian(b[8..16]);
    FromBigEndian(b[8..16])
  }

  /** The element whose size field is at pos and the position after it, or
      None when the size field or the element would run past the end. */
  function NextElement(b: seq<byte>, pos: nat): (r: Option<(seq<byte>, nat)>)
    requires pos <= |b|
    ensures r.Some? ==> r.value.1 == pos + 4 + |r.value.0| <= |b|
  {
    if pos + 4 > |b| then None
    else
      var n := FromBigEndian(b[pos..pos + 4]);
      if pos + 4 + n > |b| then None
      else Some((b[pos + 4..pos + 4 + n], pos + 4 + n))
  }

  /** One more element adds its frame at the end. */
  lemma FramesAppend(es: seq<seq<byte>>, m: seq<byte>)
    requires AllFit(es) && |m| < TWO32
    ensures AllFit(es + [m])
    ensures Frames(es + [m]) == Frames(es) + Frame(m)
    ensures FramedLength(es + [m]) == FramedLength(es) + 4 + |m|
  {
    assert (es + [m])[..|es|] == es;
  }

  /** The k-th element's frame starts where the first k frames end. */
  lemma {:induction false} FrameAt(es: seq<seq<byte>>, k: nat)
    requires AllFit(es) && k < |es|
    ensures At(Frames(es), FramedLength(es[..k]), Frame(es[k]))
    ensures FramedLength(es[..k + 1]) == FramedLength(es[..k]) + 4 + |es[k]|
    decreases |es|
  {
    var init := es[..|es| - 1];
    assert es[..k + 1][..k] == es[..k];
    if k == |es| - 1 {
      assert init == es[..k];
      AtConcat(Frames(init), Frame(es[k]), []);
      assert Frames(init) + Frame(es[k]) + [] == Frames(es);
    } else {
      assert init[..k] == es[..k] && init[k] == es[k] && init[..k + 1] == es[..k + 1];
      FrameAt(init, k);
      AtExtend(Frames(init), FramedLength(es[..k]), Frame(es[k]), Frame(es[|es| - 1]));
    }
  }

  /** An element placed at pos is the next element read from pos. */
  lemma NextFrame(b: seq<byte>, pos: nat, m: seq<byte>)
    requires |m| < TWO32 && At(b, pos, Frame(m))
    ensures NextElement(b, pos) == Some((m, pos + 4 + |m|))
  {
    Pow256Widths();
    AtSplit(b, pos, ToBigEndian(|m|, 4), m);
    FromToBigEndian(|m|, 4);
  }

  /** Reading a bundle from the end of its k-th element gives the next
      element, and nothing once all elements have been read. */
  lemma ReadBack(t: uint64, es: seq<seq<byte>>, k: nat)
    requires AllFit(es) && k <= |es|
    ensures var b := EncodeBundle(t, es);
            var pos := HeaderSize + FramedLength(es[..k]);
            pos <= |b| &&
            NextElement(b, pos) == if k < |es| then Some((es[k], HeaderSize + FramedLength(es[..k + 1]))) else None
  {
    var h := BundleTag + ToBigEndian(t, 8);
    var b := EncodeBundle(t, es);
    if k < |es| {
      FrameAt(es, k);
      AtShift(h, Frames(es), FramedLength(es[..k]), Frame(es[k]));
      NextFrame(b, HeaderSize + FramedLength(es[..k]), es[k]);
    } else {
      assert es[..k] == es;
    }
  }

  /** In a bundle of messages, getNextMessage finds a message exactly while
      elements remain: the next one, read from where the previous ends. */
  lemma MessageAhead(t: uint64, es: seq<seq<byte>>, k: nat, b: seq<byte>, pos: nat)
    requires AllFit(es) && k <= |es| && b == EncodeBundle(t, es)
    requires k < |es| ==> ParseHeader(es[k]).Ok?
    requires pos == HeaderSize + FramedLength(es[..k])
    ensures pos <= |b|
    ensures var e := NextElement(b, pos);
            (e.Some? && ParseHeader(e.value.0).Ok? <==> k < |es|) &&
            (k < |es| ==> e.value.0 == es[k] && e.value.1 == HeaderSize + FramedLength(es[..k + 1]))
    ensures k == |es| ==> pos == |b|
  {
    ReadBack(t, es, k);
    if k < |es| {
      TakeOneMore(es, k);
    } else {
      assert es[..k] == es;
    }
  }


  /** The timetag written is the timetag read. */
  lemma TimetagRoundTrip(t: uint64, es: seq<seq<byte>>)
    requires AllFit(es)
    ensures BundleTime(EncodeBundle(t, es)) == t
  {
    Pow256Widths();
    var b := EncodeBundle(t, es);
    assert b[8..16] == ToBigEndian(t, 8);
    FromToBigEndian(t, 8);
  }

  /** A bundle is detected as one; a message, whose address starts with '/',
      is not. */
  lemma BundleDetected(t: uint64, es: seq<seq<byte>>, address: seq<byte>, args: seq<OscArg>, post: seq<byte>)
    requires AllFit(es) && ValidAddress(address) && AllValid(args)
    ensures IsBundle(EncodeBundle(t, es))
    ensures !IsBundle(EncodeMessage(address, args) + post)
  {
    var b := EncodeBundle(t, es);
    assert b[..8] == BundleTag;
    var m := EncodeMessage(address, args) + post;
    MessageLaidOut(address, args, post);
    AddressLaidOut(address, m);
    assert |m| >= 8 ==> m[..8][0] == Slash;
  }

  /** One more element extends the bundle by its frame. */
  lemma EncodeBundleAppend(t: uint64, es: seq<seq<byte>>, m: seq<byte>)
    requires AllFit(es) && |m| < TWO32
    ensures AllFit(es + [m])
    ensures EncodeBundle(t, es + [m]) == EncodeBundle(t, es) + Frame(m)
  {
    FramesAppend(es, m);
    var h := BundleTag + ToBigEndian(t, 8);
    assert h + (Frames(es) + Frame(m)) == h + Frames(es) + Frame(m);
  }

  /** Copy x into buffer from position at. */
  method Put(buffer: array<byte>, at: nat, x: seq<byte>)
    requires at + |x| <= buffer.Length
    modifies buffer
    ensures forall i | 0 <= i < buffer.Length :: buffer[i] == if at <= i < at + |x| then x[i - at] else old(buffer[i])
  {
    for k := 0 to |x|
      invariant forall i | 0 <= i < buffer.Length :: buffer[i] == if at <= i < at + k then x[i - at] else old(buffer[i])
    {
      buffer[at + k] := x[k];
    }
  }

  /** The bytes committed to a bundle after one more message: the element
      written at the write head p, with the size field put in front of it,
      extends the bytes before p by its frame. */
  lemma Committed(b0: seq<byte>, b1: seq<byte>, b2: seq<byte>, p: nat, room: nat, m: seq<byte>)
    requires |m| < TWO32 && |b0| == |b1| == |b2| && p + 4 + room <= |b0| && |m| <= room
    requires b1[..p + 4] == b0[..p + 4]
    requires b1[p + 4..p + 4 + room] == m + Zeros(room - |m|)
    requires forall i | 0 <= i < |b2| :: b2[i] == if p <= i < p + 4 then ToBigEndian(|m|, 4)[i - p] else b1[i]
    ensures b2[..p] == b0[..p]
    ensures b2[..p + 4 + |m|] == b0[..p] + Frame(m)
  {
    var f := Frame(m);
    forall i | 0 <= i < p + 4 + |m| ensures b2[i] == (b0[..p] + f)[i] {
      if p + 4 <= i {
        assert b1[i] == b1[p + 4..p + 4 + room][i - p - 4];
      } else if i < p {
        assert b1[i] == b1[..p + 4][i];
      }
    }
    assert b2[..p] == b2[..p + 4 + |m|][..p];
  }

  /** The message m written after a 4-byte size field at p, into the room
      bytes after that field, when the bytes before p are the bundle of es:
      those bytes stay, and on success the bundle of es and m follows. */
  method WriteElement(buffer: array<byte>, p: nat, room: nat, address: seq<byte>, format: seq<byte>, args: seq<OscArg>,
                      ghost t: uint64, ghost es: seq<seq<byte>>)
      returns (r: Result<nat, WriteError>, ghost m: seq<byte>)
    requires p + 4 + room <= buffer.Length && room < TWO32
    requires NoNul(address) && NoNul(format) && AllValid(args)
    requires AllFit(es) && buffer[..p] == EncodeBundle(t, es)
    modifies buffer
    ensures buffer[..p] == old(buffer[..p])
    ensures match Compose(room, address, format, args)
            case Ok(x) => r == Ok(|x|) && m == x
            case Err(e) => r == Err(e)
    ensures r.Ok? ==> r.value == |m| && AllFit(es + [m]) && buffer[..p + 4 + |m|] == EncodeBundle(t, es + [m])
  {
    ghost var b0 := buffer[..];
    r := WriteMessage(buffer, p + 4, room, address, format, args);
    ghost var b1 := buffer[..];
    assert b1[..p + 4] == b0[..p + 4];
    if r.Err? {
      m := [];
      assert buffer[..p] == b1[..p + 4][..p];
      return;
    }
    m := Compose(room, address, format, args).value;
    Put(buffer, p, ToBigEndian(r.value, 4));
    Committed(b0, b1, buffer[..], p, room, m);
    EncodeBundleAppend(t, es, m);
  }

  class Bundle {
    var buffer: array<byte>  // the caller's buffer; the bundle starts at index 0
    var marker: nat          // the write head, or the read head while reading
    var bufLen: nat          // the bytes of buffer the bundle may use
    var bundleLen: nat       // the bytes of the bundle so far
    ghost var time: uint64
    ghost var elements: seq<seq<byte>>  // the messages written, in order

    /** An empty bundle view, not yet pointed at a buffer. */
    constructor ()
      ensures marker == 0 && bufLen == 0 && bundleLen == 0 && elements == []
    {
      buffer := new byte[0];
      marker, bufLen, bundleLen := 0, 0, 0;
      time, elements := 0, [];
    }

    /** The head lies after the bundle header and within the bundle, which
        lies within the buffer; lengths are 32-bit. */
    ghost predicate Valid()
      reads this
    {
      HeaderSize <= marker <= bundleLen <= bufLen <= buffer.Length && bufLen < TWO32
    }

    /** While writing: the head is at the end of the bundle, and the bundle
        so far holds the timetag and the messages written. */
    ghost predicate Writing()
      reads this, buffer
    {
      Valid() && marker == bundleLen && AllFit(elements) &&
      buffer[..bundleLen] == EncodeBundle(time, elements)
    }

    /** writeBundle: the bundle tag and the timetag at the start of buf, and
        the write head after them; nothing else in buf changes. */
    method WriteBundle(t: uint64, buf: array<byte>, n: nat)
      requires HeaderSize <= n <= buf.Length && n < TWO32
      modifies this, buf
      ensures buffer == buf && bufLen == n && time == t && elements == []
      ensures Writing() && GetBundleLength() == HeaderSize
      ensures forall i | HeaderSize <= i < buf.Length :: buf[i] == old(buf[i])
    {
      Put(buf, 0, BundleTag + ToBigEndian(t, 8));
      buffer, bufLen, bundleLen, marker := buf, n, HeaderSize, HeaderSize;
      time, elements := t, [];
      assert buffer[..bundleLen] == EncodeBundle(time, elements);
    }

    /** writeNextMessage: the message written after a 4-byte size at the write
        head, into the room left in the buffer, and the head moved past it;
        its length is returned. When the size field does not fit, or
        writeMessage writes no message, the bundle stays as it was. */
    method WriteNextMessage(address: seq<byte>, format: seq<byte>, args: seq<OscArg>)
        returns (r: Result<nat, WriteError>)
      requires Writing() && NoNul(address) && NoNul(format) && AllValid(args)
      modifies this`marker, this`bundleLen, this`elements, buffer
      ensures Writing()
      ensures old(bundleLen + 4 > bufLen) ==> r == Err(Overflow) && elements == old(elements) && bundleLen == old(bundleLen)
      ensures old(bundleLen + 4 <= bufLen) ==>
              match Compose(old(bufLen - bundleLen - 4), address, format, args)
              case Ok(m) => r == Ok(|m|) && elements == old(elements) + [m] && bundleLen == old(bundleLen) + 4 + |m|
              case Err(e) => r == Err(e) && elements == old(elements) && bundleLen == old(bundleLen)
    {
      if bundleLen + 4 > bufLen {
        return Err(Overflow);
      }
      var room := bufLen - bundleLen - 4;
      ghost var m;
      r, m := WriteElement(buffer, marker, room, address, format, args, time, elements);
      if r.Err? {
        return;
      }
      elements := elements + [m];
      marker, bundleLen := marker + 4 + r.value, bundleLen + 4 + r.value;
    }

    /** getBundleLength: the bytes of the bundle; while writing, the header
        and every message written with its size field. */
    function GetBundleLength(): (l: nat)
      reads this, buffer
      ensures Writing() ==> l == HeaderSize + FramedLength(elements)
    {
      bundleLen
    }

    /** parseBundle: a view over the bundle in buf[..n], with the read head on
        the first element. */
    method ParseBundle(buf: array<byte>, n: nat)
      requires HeaderSize <= n <= buf.Length && n < TWO32
      modifies this
      ensures buffer == buf && bufLen == n && bundleLen == n && marker == HeaderSize && Valid()
    {
      buffer, bufLen, bundleLen, marker := buf, n, n, HeaderSize;
    }

    /** getTimetag: the timetag in the bundle header. */
    function GetTimetag(): (t: uint64)
      reads this, buffer
      requires Valid()
      ensures t == BundleTime(buffer[..bundleLen])
    {
      Pow256Widths();
      assert buffer[..bundleLen][8..16] == buffer[8..16];
      FromBigEndian(buffer[8..16])
    }

    /** getNextMessage: the view o pointed at the element under the read head,
        and the head moved past it; false, with the head and o left alone,
        when no whole element remains or the element is not a message. */
    method GetNextMessage(o: Message) returns (ok: bool)
      requires Valid()
      modifies this`marker, o
      ensures Valid()
      ensures var e := NextElement(old(buffer[..bundleLen]), old(marker));
              ok <==> e.Some? && ParseHeader(e.value.0).Ok?
      ensures var e := NextElement(old(buffer[..bundleLen]), old(marker));
              ok ==> marker == e.value.1 && o.buffer == e.value.0 && o.Valid() && o.marker == o.FirstArgument()
      ensures !ok ==> marker == old(marker) && unchanged(o)
    {
      var b := buffer[..bundleLen];
      if marker + 4 > bundleLen {
        return false;
      }
      var size := ReadBigEndian(b, marker, 4);
      if marker + 4 + size > bundleLen {
        return false;
      }
      var m := b[marker + 4..marker + 4 + size];
      assert NextElement(b, marker) == Some((m, marker + 4 + size));
      assert m[..size] == m;
      var code := o.Parse(m, size);
      if code != 0 {
        return false;
      }
      marker := marker + 4 + size;
      ok := true;
    }

    /** getNextMessage on a bundle that encodes the messages es, with the
        read head after the first k of them: it yields message k and moves
        past it, or, after the last one, reports that none is left. */
    method ReadElement(o: Message, ghost t: uint64, ghost es: seq<seq<byte>>, ghost k: nat) returns (ok: bool)
      requires Valid() && AllFit(es) && k <= |es|
      requires buffer[..bundleLen] == EncodeBundle(t, es)
      requires marker == HeaderSize + FramedLength(es[..k])
      requires k < |es| ==> ParseHeader(es[k]).Ok?
      modifies this`marker, o
      ensures Valid() && (ok <==> k < |es|)
      ensures ok ==> o.buffer == es[k] && marker == HeaderSize + FramedLength(es[..k + 1])
                     && o.Valid() && o.marker == o.FirstArgument()
      ensures !ok ==> marker == old(marker) == bundleLen
    {
      MessageAhead(t, es, k, buffer[..bundleLen], marker);
      ok := GetNextMessage(o);
    }

    /** The reading loop of a bundle client, getNextMessage until it returns
        false: over a bundle of messages es it hands o each of them in
        order, then stops with the read head at the end of the bundle. */
    method ReadMessages(o: Message, ghost t: uint64, ghost es: seq<seq<byte>>) returns (seen: seq<seq<byte>>)
      requires Valid() && marker == HeaderSize && AllFit(es)
      requires buffer[..bundleLen] == EncodeBundle(t, es)
      requires forall i | 0 <= i < |es| :: ParseHeader(es[i]).Ok?
      modifies this`marker, o
      ensures Valid() && seen == es && marker == bundleLen
    {
      seen := [];
      while true
        invariant Valid() && |seen| <= |es| && seen == es[..|seen|]
        invariant buffer[..bundleLen] == EncodeBundle(t, es)
        invariant marker == HeaderSize + FramedLength(es[..|seen|])
        decreases |es| - |seen|
      {
        var ok := ReadElement(o, t, es, |seen|);
        if !ok {
          PrefixWhole(seen, es);
          break;
        }
        PrefixGrows(seen, es, o.buffer);
        seen := seen + [o.buffer];
      }
    }
  }

  /** The sending side: writeBundle with timetag t, then two
      writeNextMessage calls. When both messages fit, both are written, and
      buf starts with the bundle of the two, getBundleLength bytes long. */
  method SendTwo(t: uint64, buf: array<byte>, n: nat,
                 address1: seq<byte>, format1: seq<byte>, args1: seq<OscArg>,
                 address2: seq<byte>, format2: seq<byte>, args2: seq<OscArg>)
      returns (r1: Result<nat, WriteError>, r2: Result<nat, WriteError>, length: nat, ghost written: seq<seq<byte>>)
    requires n <= buf.Length && n < TWO32
    requires ValidAddress(address1) && AllValid(args1) && format1 == Tags(args1)
    requires ValidAddress(address2) && AllValid(args2) && format2 == Tags(args2)
    requires HeaderSize + 4 + |EncodeMessage(address1, args1)| + 4 + |EncodeMessage(address2, args2)| <= n
    modifies buf
    ensures r1 == Ok(|EncodeMessage(address1, args1)|) && r2 == Ok(|EncodeMessage(address2, args2)|)
    ensures written == [EncodeMessage(address1, args1), EncodeMessage(address2, args2)] && AllFit(written)
    ensures HeaderSize <= length <= n && buf[..length] == EncodeBundle(t, written)
  {
    ghost var m1, m2 := EncodeMessage(address1, args1), EncodeMessage(address2, args2);
    var b := new Bundle();
    b.WriteBundle(t, buf, n);
    ComposeSucceeds(n - HeaderSize - 4, address1, format1, args1);
    assert Compose(n - HeaderSize - 4, address1, format1, args1) == Ok(m1);
    r1 := b.WriteNextMessage(address1, format1, args1);
    assert b.elements == [m1] && b.bundleLen == HeaderSize + 4 + |m1|;
    ComposeSucceeds(n - b.bundleLen - 4, address2, format2, args2);
    assert Compose(n - b.bundleLen - 4, address2, format2, args2) == Ok(m2);
    r2 := b.WriteNextMessage(address2, format2, args2);
    written := b.elements;
    length := b.GetBundleLength();
  }

  /** The receiving side: parseBundle over a received bundle of messages,
      getTimetag, then getNextMessage until it returns false. The timetag
      and every message come back, in the order they were written. */
  method Receive(buf: array<byte>, length: nat, ghost t: uint64, ghost es: seq<seq<byte>>)
      returns (time: uint64, received: seq<seq<byte>>)
    requires HeaderSize <= length <= buf.Length && length < TWO32
    requires AllFit(es) && buf[..length] == EncodeBundle(t, es)
    requires forall i | 0 <= i < |es| :: ParseHeader(es[i]).Ok?
    ensures time == t && received == es
  {
    var b := new Bundle();
    b.ParseBundle(buf, length);
    time := b.GetTimetag();
    TimetagRoundTrip(t, es);
    var o := new Message();
    received := b.ReadMessages(o, t, es);
  }

  /** A sender and a receiver sharing buf. When both messages fit, the
      receiver gets back the timetag and the two messages in order, and
      each decodes to the address and the arguments it was written with. */
  method SendAndReceive(t: uint64, buf: array<byte>, n: nat,
                        address1: seq<byte>, format1: seq<byte>, args1: seq<OscArg>,
                        address2: seq<byte>, format2: seq<byte>, args2: seq<OscArg>)
      returns (r1: Result<nat, WriteError>, r2: Result<nat, WriteError>, time: uint64, received: seq<seq<byte>>)
    requires n <= buf.Length && n < TWO32
    requires ValidAddress(address1) && AllValid(args1) && format1 == Tags(args1)
    requires ValidAddress(address2) && AllValid(args2) && format2 == Tags(args2)
    requires HeaderSize + 4 + |EncodeMessage(address1, args1)| + 4 + |EncodeMessage(address2, args2)| <= n
    modifies buf
    ensures r1 == Ok(|EncodeMessage(address1, args1)|) && r2 == Ok(|EncodeMessage(address2, args2)|)
    ensures time == t
    ensures received == [EncodeMessage(address1, args1), EncodeMessage(address2, args2)]
    ensures DecodeMessage(received[0]) == Some(Decoded(address1, args1))
    ensures DecodeMessage(received[1]) == Some(Decoded(address2, args2))
  {
    var length: nat;
    ghost var written: seq<seq<byte>>;
    r1, r2, length, written := SendTwo(t, buf, n, address1, format1, args1, address2, format2, args2);
    DecodeEncodeMessage(address1, args1, []);
    DecodeEncodeMessage(address2, args2, []);
    assert written[0] + [] == written[0] && written[1] + [] == written[1];
    time, received := Receive(buf, length, t, written);
  }
}

/** writeMessage: clear the caller's buffer, then write one OSC message into
    it (the address, ',' and the type tags, then the arguments) and report
    how many bytes the message takes. */
module Writer {
  import opened Wire
  import opened OscMessage

  /** Why writeMessage writes no message. */
  datatype WriteError =
    | UnknownTypeTag    // the type-tag string names a type the codec cannot write
    | ArgumentMismatch  // the values passed do not match the type-tag string
    | Overflow          // the message does not fit in the buffer

  predicate AllKnown(format: seq<byte>)
  {
    forall i | 0 <= i < |format| :: KnownTag(format[i])
  }

  /** The message writeMessage puts at the start of a buffer of len bytes,
      or why it puts none there. */
  function Compose(len: nat, address: seq<byte>, format: seq<byte>, args: seq<OscArg>): (r: Result<seq<byte>, WriteError>)
    requires NoNul(address) && AllValid(args)
    ensures r.Ok? ==> format == Tags(args) && |r.value| <= len && |r.value| % 4 == 0
    ensures r.Ok? ==> |address| < |r.value| && r.value[..|address|] == address && r.value[|address|] == 0
  {
    if !AllKnown(format) then Err(UnknownTypeTag)
    else if format != Tags(args) then Err(ArgumentMismatch)
    else
      var m := EncodeMessage(address, args);
      if |m| > len then Err(Overflow) else Ok(m)
  }

  lemma TagsKnown(args: seq<OscArg>)
    ensures AllKnown(Tags(args))
  {
    forall i | 0 <= i < |args| ensures KnownTag(Tags(args)[i]) {
      var a := args[i];
      assert Tags(args)[i] == TagOf(a);
    }
  }

  /** A message is written exactly when the values match the type tags and
      the whole message fits in the buffer. */
  lemma ComposeSucceeds(len: nat, address: seq<byte>, format: seq<byte>, args: seq<OscArg>)
    requires NoNul(address) && AllValid(args)
    ensures Compose(len, address, format, args).Ok?
            <==> format == Tags(args) && |EncodeMessage(address, args)| <= len
  {
    TagsKnown(args);
  }

  /** The count writeMessage returns: the address, the ',' with the type tags,
      and every argument, each padded to a multiple of 4. */
  lemma ComposeSize(len: nat, address: seq<byte>, format: seq<byte>, args: seq<OscArg>)
    requires NoNul(address) && AllValid(args)
    requires Compose(len, address, format, args).Ok?
    ensures var m := Compose(len, address, format, args).value;
            |m| == Pad4(|address| + 1) + Pad4(|format| + 2) + ArgsSize(args)
            && |m| % 4 == 0 && |m| <= len
  {
    EncodeArgsSize(args);
  }

  /** Parsing the cleared and written buffer gives back the address and the
      argument values in type-tag order. */
  lemma ComposeRoundTrip(len: nat, address: seq<byte>, format: seq<byte>, args: seq<OscArg>)
    requires ValidAddress(address) && AllValid(args)
    requires Compose(len, address, format, args).Ok?
    ensures var m := Compose(len, address, format, args).value;
            DecodeMessage(m + Zeros(len - |m|)) == Some(Decoded(address, args))
  {
    var m := Compose(len, address, format, args).value;
    DecodeEncodeMessage(address, args, Zeros(len - |m|));
  }

  /** A written message with a well-formed address has a header the message
      view parses, so a bundle of such messages can be read back. */
  lemma ComposedParses(len: nat, address: seq<byte>, format: seq<byte>, args: seq<OscArg>)
    requires ValidAddress(address) && AllValid(args)
    requires Compose(len, address, format, args).Ok?
    ensures ParseHeader(Compose(len, address, format, args).value).Ok?
  {
    var m := Compose(len, address, format, args).value;
    DecodeEncodeMessage(address, args, []);
    assert m + [] == m;
  }

  /** The firmware's call writeMessage(buffer, sizeof(buffer), "/pot_1", "i",
      v), with its 1024-byte buffer and any pot reading v: the message is
      written and takes 16 bytes. In 12 bytes it would not fit. */
  lemma PotMessageWritten(v: int32)
    ensures var address: seq<byte> := [0x2F, 0x70, 0x6F, 0x74, 0x5F, 0x31];
            var m := address + [0, 0, Comma, TagInt32, 0, 0] + ToBigEndian(Int32ToWord(v), 4);
            |m| == 16 &&
            Compose(1024, address, [TagInt32], [Int32(v)]) == Ok(m) &&
            Compose(12, address, [TagInt32], [Int32(v)]) == Err(Overflow)
  {
    PotMessageLayout(v);
    assert AllKnown([TagInt32]);
    assert Tags([Int32(v)]) == [TagInt32];
  }


  /** The region [start, start + len) of buffer holds w followed by NULs. */
  ghost predicate Holds(buffer: array<byte>, start: nat, len: nat, w: seq<byte>)
    reads buffer
  {
    start + len <= buffer.Length && |w| <= len &&
    forall i | start <= i < start + len :: buffer[i] == if i - start < |w| then w[i - start] else 0
  }

  lemma HoldsRegion(buffer: array<byte>, start: nat, len: nat, w: seq<byte>)
    requires Holds(buffer, start, len, w)
    ensures buffer[start..start + len] == w + Zeros(len - |w|)
  {
    var z := Zeros(len - |w|);
    forall k | 0 <= k < len ensures buffer[start..start + len][k] == (w + z)[k] {
      assert buffer[start..start + len][k] == buffer[start + k];
    }
  }

  /** NULs already in place extend what the region holds. */
  lemma HoldsPadded(buffer: array<byte>, start: nat, len: nat, w: seq<byte>, n: nat)
    requires Holds(buffer, start, len, w) && |w| + n <= len
    ensures Holds(buffer, start, len, w + Zeros(n))
  {
  }

  /** Zero every byte of [start, start + len). */
  method Clear(buffer: array<byte>, start: nat, len: nat)
    requires start + len <= buffer.Length
    modifies buffer
    ensures Holds(buffer, start, len, [])
    ensures buffer[..start] == old(buffer[..start]) && buffer[start + len..] == old(buffer[start + len..])
  {
    for i := start to start + len
      invariant forall j | start <= j < i :: buffer[j] == 0
      invariant buffer[..start] == old(buffer[..start]) && buffer[start + len..] == old(buffer[start + len..])
    {
      buffer[i] := 0;
    }
  }

  /** Copy x to the write head pos, just after the w already written. */
  method Append(buffer: array<byte>, start: nat, len: nat, ghost w: seq<byte>, pos: nat, x: seq<byte>)
    requires Holds(buffer, start, len, w) && pos == start + |w| && |w| + |x| <= len
    modifies buffer
    ensures Holds(buffer, start, len, w + x)
    ensures buffer[..start] == old(buffer[..start]) && buffer[start + len..] == old(buffer[start + len..])
  {
    for k := 0 to |x|
      invariant forall i | start <= i < start + len ::
        buffer[i] == if i - start < |w| then w[i - start] else if i < pos + k then x[i - pos] else 0
      invariant buffer[..start] == old(buffer[..start]) && buffer[start + len..] == old(buffer[start + len..])
    {
      buffer[pos + k] := x[k];
    }
  }

  /** Write the address and the type tags, each as an OSC-string, into the
      cleared region. */
  method WriteHeader(buffer: array<byte>, start: nat, len: nat, address: seq<byte>, format: seq<byte>)
      returns (pos: nat)
    requires Holds(buffer, start, len, [])
    requires Pad4(|address| + 1) + Pad4(|format| + 2) <= len
    modifies buffer
    ensures Holds(buffer, start, len, OscString(address) + OscString([Comma] + format))
    ensures pos == start + Pad4(|address| + 1) + Pad4(|format| + 2)
    ensures buffer[..start] == old(buffer[..start]) && buffer[start + len..] == old(buffer[start + len..])
  {
    var x := OscString(address);
    var y := OscString([Comma] + format);
    Append(buffer, start, len, [], start, address);
    assert [] + address == address;
    HoldsPadded(buffer, start, len, address, |x| - |address|);
    pos := start + |x|;
    Append(buffer, start, len, x, pos, [Comma] + format);
    HoldsPadded(buffer, start, len, x + ([Comma] + format), |y| - |format| - 1);
    assert x + ([Comma] + format) + Zeros(|y| - |format| - 1) == x + y;
    pos := pos + |y|;
  }

  /** Write the arguments' wire forms one after the other from the write
      head pos, just after the head already written. */
  method WriteArgs(buffer: array<byte>, start: nat, len: nat, ghost head: seq<byte>, pos: nat, args: seq<OscArg>)
      returns (end: nat)
    requires AllValid(args)
    requires Holds(buffer, start, len, head) && pos == start + |head|
    requires |head| + ArgsSize(args) <= len
    modifies buffer
    ensures Holds(buffer, start, len, head + EncodeArgs(args))
    ensures end == pos + ArgsSize(args)
    ensures buffer[..start] == old(buffer[..start]) && buffer[start + len..] == old(buffer[start + len..])
  {
    ghost var w := head;
    end := pos;
    for k := 0 to |args|
      invariant w == head + EncodeArgs(args[..k]) && end == start + |w|
      invariant Holds(buffer, start, len, w)
      invariant |w| + ArgsSize(args[k..]) == |head| + ArgsSize(args)
      invariant buffer[..start] == old(buffer[..start]) && buffer[start + len..] == old(buffer[start + len..])
    {
      var x := EncodeArg(args[k]);
      ArgsStep(head, args, k);
      Append(buffer, start, len, w, end, x);
      w, end := w + x, end + |x|;
    }
    assert args[..|args|] == args;
  }

  /** One more argument written: the written bytes grow by its wire form,
      the bytes still to write shrink by as much. */
  lemma ArgsStep(head: seq<byte>, args: seq<OscArg>, k: nat)
    requires AllValid(args) && k < |args|
    ensures head + EncodeArgs(args[..k + 1]) == head + EncodeArgs(args[..k]) + EncodeArg(args[k])
    ensures ArgsSize(args[k..]) == |EncodeArg(args[k])| + ArgsSize(args[k + 1..])
  {
    assert args[k..][0] == args[k] && args[k..][1..] == args[k + 1..];
    assert args[..k + 1] == args[..k] + [args[k]];
    EncodeArgsAppend(args[..k], args[k]);
  }

  /** writeMessage: clears buffer[start..start + len], then writes the
      message with address, type tags format and values args, returning its
      length; nothing outside the region changes. */
  method WriteMessage(buffer: array<byte>, start: nat, len: nat, address: seq<byte>, format: seq<byte>, args: seq<OscArg>)
      returns (r: Result<nat, WriteError>)
    requires start + len <= buffer.Length
    requires NoNul(address) && NoNul(format) && AllValid(args)
    modifies buffer
    ensures buffer[..start] == old(buffer[..start]) && buffer[start + len..] == old(buffer[start + len..])
    ensures match Compose(len, address, format, args)
            case Ok(m) => r == Ok(|m|) && buffer[start..start + len] == m + Zeros(len - |m|)
            case Err(e) => r == Err(e) && buffer[start..start + len] == Zeros(len)
  {
    Clear(buffer, start, len);
    HoldsRegion(buffer, start, len, []);
    var size := Pad4(|address| + 1) + Pad4(|format| + 2) + ArgsSize(args);
    if !AllKnown(format) {
      r := Err(UnknownTypeTag);
    } else if format != Tags(args) {
      r := Err(ArgumentMismatch);
    } else {
      ComposedSize(len, address, format, args);
      if size > len {
        r := Err(Overflow);
      } else {
        var end := WriteFields(buffer, start, len, address, format, args);
        r := Ok(end - start);
      }
    }
    Outcome(len, address, format, args, r, buffer[start..start + len]);
  }

  /** The result and the region writeMessage leaves, case by case, are the
      ones Compose describes. */
  lemma Outcome(len: nat, address: seq<byte>, format: seq<byte>, args: seq<OscArg>, r: Result<nat, WriteError>, region: seq<byte>)
    requires NoNul(address) && AllValid(args)
    requires !AllKnown(format) ==> r == Err(UnknownTypeTag) && region == Zeros(len)
    requires AllKnown(format) && format != Tags(args) ==> r == Err(ArgumentMismatch) && region == Zeros(len)
    requires AllKnown(format) && format == Tags(args) ==>
               var m := OscString(address) + OscString([Comma] + format) + EncodeArgs(args);
               if |m| > len then r == Err(Overflow) && region == Zeros(len)
               else r == Ok(|m|) && region == m + Zeros(len - |m|)
    ensures match Compose(len, address, format, args)
            case Ok(m) => r == Ok(|m|) && region == m + Zeros(len - |m|)
            case Err(e) => r == Err(e) && region == Zeros(len)
  {
    if AllKnown(format) && format == Tags(args) {
      ComposedSize(len, address, format, args);
    }
  }

  /** Write the header and then the arguments into the cleared region, which
      has room for all of them. */
  method WriteFields(buffer: array<byte>, start: nat, len: nat, address: seq<byte>, format: seq<byte>, args: seq<OscArg>)
      returns (end: nat)
    requires Holds(buffer, start, len, [])
    requires AllValid(args)
    requires Pad4(|address| + 1) + Pad4(|format| + 2) + ArgsSize(args) <= len
    modifies buffer
    ensures var m := OscString(address) + OscString([Comma] + format) + EncodeArgs(args);
            end == start + Pad4(|address| + 1) + Pad4(|format| + 2) + ArgsSize(args)
            && |m| <= len && buffer[start..start + len] == m + Zeros(len - |m|)
    ensures buffer[..start] == old(buffer[..start]) && buffer[start + len..] == old(buffer[start + len..])
  {
    var pos := WriteHeader(buffer, start, len, address, format);
    ghost var head := OscString(address) + OscString([Comma] + format);
    end := WriteArgs(buffer, start, len, head, pos, args);
    HoldsRegion(buffer, start, len, head + EncodeArgs(args));
  }

  /** With matching values, the message written field by field is the
      encoded message, and its size is the sum of the padded fields. */
  lemma ComposedSize(len: nat, address: seq<byte>, format: seq<byte>, args: seq<OscArg>)
    requires NoNul(address) && AllValid(args) && format == Tags(args)
    ensures var m := OscString(address) + OscString([Comma] + format) + EncodeArgs(args);
            var size := Pad4(|address| + 1) + Pad4(|format| + 2) + ArgsSize(args);
            |m| == size && Compose(len, address, format, args) == if size > len then Err(Overflow) else Ok(m)
  {
    TagsKnown(args);
    EncodeArgsSize(args);
  }
}

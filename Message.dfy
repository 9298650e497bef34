/** The OSC message as a value: typed arguments, their wire form, the
    message encoding and the decoding that undoes it (sections "OSC
    Messages" and "OSC Type Tag String" of Open Sound Control 1.0). */
module OscMessage {
  import opened Wire

  const Slash: byte := 0x2F  // '/', first byte of every address
  const Comma: byte := 0x2C  // ',', first byte of every type-tag string

  const TagInt32: byte := 0x69    // 'i'
  const TagFloat32: byte := 0x66  // 'f'
  const TagString: byte := 0x73   // 's'
  const TagBlob: byte := 0x62     // 'b'
  const TagInt64: byte := 0x68    // 'h'
  const TagFloat64: byte := 0x64  // 'd'
  const TagTimetag: byte := 0x74  // 't'
  const TagMidi: byte := 0x6D     // 'm'

  /** One argument value; floats are carried as their IEEE-754 bit patterns. */
  datatype OscArg =
    | Int32(i: int32)
    | Float32(fbits: uint32)
    | Str(s: seq<byte>)
    | Blob(data: seq<byte>)
    | Int64(h: int64)
    | Float64(dbits: uint64)
    | Timetag(t: uint64)
    | Midi(port: byte, status: byte, data1: byte, data2: byte)

  /** The type tags the codec reads and writes. */
  predicate KnownTag(c: byte)
  {
    c == TagInt32 || c == TagFloat32 || c == TagString || c == TagBlob ||
    c == TagInt64 || c == TagFloat64 || c == TagTimetag || c == TagMidi
  }

  /** The argument values the C interface can carry: strings are C strings,
      blob lengths fit the 32-bit length prefix. */
  predicate ValidArg(a: OscArg)
  {
    match a
    case Str(s) => NoNul(s)
    case Blob(d) => |d| < TWO32
    case _ => true
  }

  predicate AllValid(args: seq<OscArg>)
  {
    forall k | 0 <= k < |args| :: ValidArg(args[k])
  }

  /** A well-formed address: starts with '/' and is a C string. */
  predicate ValidAddress(address: seq<byte>)
  {
    |address| > 0 && address[0] == Slash && NoNul(address)
  }

  function TagOf(a: OscArg): byte
  {
    match a
    case Int32(_) => TagInt32
    case Float32(_) => TagFloat32
    case Str(_) => TagString
    case Blob(_) => TagBlob
    case Int64(_) => TagInt64
    case Float64(_) => TagFloat64
    case Timetag(_) => TagTimetag
    case Midi(_, _, _, _) => TagMidi
  }

  /** The type tags of args, in order. */
  function Tags(args: seq<OscArg>): (tags: seq<byte>)
    ensures |tags| == |args|
    ensures forall k | 0 <= k < |args| :: tags[k] == TagOf(args[k])
    ensures NoNul(tags)
  {
    if args == [] then [] else [TagOf(args[0])] + Tags(args[1..])
  }

  /** The number of bytes an argument takes on the wire, per type tag. */
  function ArgSize(a: OscArg): nat
  {
    match a
    case Int32(_) => 4
    case Float32(_) => 4
    case Midi(_, _, _, _) => 4
    case Int64(_) => 8
    case Float64(_) => 8
    case Timetag(_) => 8
    case Str(s) => Pad4(|s| + 1)
    case Blob(d) => 4 + Pad4(|d|)
  }

  /** The wire form of one argument. */
  function EncodeArg(a: OscArg): (r: seq<byte>)
    requires ValidArg(a)
    ensures |r| == ArgSize(a) && |r| % 4 == 0
  {
    match a
    case Int32(v) => ToBigEndian(Int32ToWord(v), 4)
    case Float32(bits) => ToBigEndian(bits, 4)
    case Str(s) => OscString(s)
    case Blob(d) => OscBlob(d)
    case Int64(v) => ToBigEndian(Int64ToWord(v), 8)
    case Float64(bits) => ToBigEndian(bits, 8)
    case Timetag(t) => ToBigEndian(t, 8)
    case Midi(p, st, d1, d2) => [p, st, d1, d2]
  }

  /** The arguments' wire forms, one after the other, in order. */
  function EncodeArgs(args: seq<OscArg>): (r: seq<byte>)
    requires AllValid(args)
    ensures |r| % 4 == 0
  {
    if args == [] then []
    else
      var head := EncodeArg(args[0]);
      var tail := EncodeArgs(args[1..]);
      Aligned(|head|, |tail|);
      head + tail
  }

  /** The bytes the arguments take on the wire, each padded to a multiple of 4. */
  function ArgsSize(args: seq<OscArg>): nat
  {
    if args == [] then 0 else ArgSize(args[0]) + ArgsSize(args[1..])
  }

  /** The encoded arguments take exactly their padded sizes. */
  lemma {:induction false} EncodeArgsSize(args: seq<OscArg>)
    requires AllValid(args)
    ensures |EncodeArgs(args)| == ArgsSize(args)
  {
    if args != [] {
      EncodeArgsSize(args[1..]);
    }
  }

  lemma AllValidAppend(args: seq<OscArg>, a: OscArg)
    requires AllValid(args) && ValidArg(a)
    ensures AllValid(args + [a])
  {
    var all := args + [a];
    forall k | 0 <= k < |all| ensures ValidArg(all[k]) {
      if k < |args| { assert all[k] == args[k]; }
    }
  }

  /** Encoding one more argument appends its wire form. */
  lemma {:induction false} EncodeArgsAppend(args: seq<OscArg>, a: OscArg)
    requires AllValid(args) && ValidArg(a)
    ensures AllValid(args + [a])
    ensures EncodeArgs(args + [a]) == EncodeArgs(args) + EncodeArg(a)
  {
    AllValidAppend(args, a);
    if args == [] {
      assert args + [a] == [a];
      assert EncodeArgs([a]) == EncodeArg(a) + EncodeArgs([]);
    } else {
      var all := args + [a];
      assert all[0] == args[0] && all[1..] == args[1..] + [a];
      AllValidAppend(args[1..], a);
      EncodeArgsAppend(args[1..], a);
      var h, t, e := EncodeArg(args[0]), EncodeArgs(args[1..]), EncodeArg(a);
      assert EncodeArgs(all) == h + (t + e);
      assert h + (t + e) == (h + t) + e;
    }
  }

  /** A whole message: the address and ',' plus the tags as OSC-strings,
      then the arguments. */
  function EncodeMessage(address: seq<byte>, args: seq<OscArg>): (r: seq<byte>)
    requires NoNul(address) && AllValid(args)
    ensures |r| % 4 == 0
    ensures |r| == Pad4(|address| + 1) + Pad4(|args| + 2) + |EncodeArgs(args)|
  {
    var x := OscString(address);
    var y := OscString([Comma] + Tags(args));
    var z := EncodeArgs(args);
    Aligned(|x|, |y|);
    Aligned(|x| + |y|, |z|);
    x + y + z
  }

  /** The value of the argument with type tag `tag` at position pos of b and
      the position after it (padding included), or None when the tag is
      unknown or the field would run past the end of b. */
  function DecodeArg(tag: byte, b: seq<byte>, pos: nat): (r: Option<(OscArg, nat)>)
    requires pos <= |b|
    ensures r.Some? ==> TagOf(r.value.0) == tag && ValidArg(r.value.0)
    ensures r.Some? ==> r.value.1 == pos + ArgSize(r.value.0) <= |b|
    ensures !KnownTag(tag) ==> r.None?
  {
    if tag == TagString then DecodeString(b, pos)
    else if tag == TagBlob then DecodeBlob(b, pos)
    else if KnownTag(tag) then DecodeFixed(tag, b, pos)
    else None
  }

  /** A 4- or 8-byte argument: a big-endian word, or the four MIDI bytes. */
  function DecodeFixed(tag: byte, b: seq<byte>, pos: nat): (r: Option<(OscArg, nat)>)
    requires pos <= |b| && KnownTag(tag) && tag != TagString && tag != TagBlob
    ensures r.Some? ==> TagOf(r.value.0) == tag && ValidArg(r.value.0)
    ensures r.Some? ==> r.value.1 == pos + ArgSize(r.value.0) <= |b|
  {
    Pow256Widths();
    if tag == TagInt32 || tag == TagFloat32 || tag == TagMidi then
      if pos + 4 > |b| then None
      else
        var w := FromBigEndian(b[pos..pos + 4]);
        if tag == TagInt32 then Some((Int32(WordToInt32(w)), pos + 4))
        else if tag == TagFloat32 then Some((Float32(w), pos + 4))
        else Some((Midi(b[pos], b[pos + 1], b[pos + 2], b[pos + 3]), pos + 4))
    else
      if pos + 8 > |b| then None
      else
        var w := FromBigEndian(b[pos..pos + 8]);
        if tag == TagInt64 then Some((Int64(WordToInt64(w)), pos + 8))
        else if tag == TagFloat64 then Some((Float64(w), pos + 8))
        else Some((Timetag(w), pos + 8))
  }

  /** An OSC-string argument; None when no NUL ends it, or when its padding
      would run past the end of b. */
  function DecodeString(b: seq<byte>, pos: nat): (r: Option<(OscArg, nat)>)
    requires pos <= |b|
    ensures r.Some? ==> r.value.0.Str? && NoNul(r.value.0.s)
    ensures r.Some? ==> r.value.1 == pos + ArgSize(r.value.0) <= |b|
    ensures r.None? <==> NulFrom(b, pos) == |b| || pos + Pad4(NulFrom(b, pos) - pos + 1) > |b|
  {
    var k := NulFrom(b, pos);
    if k == |b| || pos + Pad4(k - pos + 1) > |b| then None
    else
      var s := b[pos..k];
      assert NoNul(s) by {
        forall j | 0 <= j < |s| ensures s[j] != 0 { assert s[j] == b[pos + j]; }
      }
      Some((Str(s), pos + Pad4(k - pos + 1)))
  }

  /** An OSC-blob argument; None when its length prefix or its padded
      payload would run past the end of b. */
  function DecodeBlob(b: seq<byte>, pos: nat): (r: Option<(OscArg, nat)>)
    requires pos <= |b|
    ensures r.Some? ==> r.value.0.Blob? && |r.value.0.data| < TWO32
    ensures r.Some? ==> r.value.1 == pos + ArgSize(r.value.0) <= |b|
    ensures r.None? <==> pos + 4 > |b| || pos + 4 + Pad4(FromBigEndian(b[pos..pos + 4])) > |b|
  {
    if pos + 4 > |b| then None
    else
      var n := FromBigEndian(b[pos..pos + 4]);
      if pos + 4 + Pad4(n) > |b| then None
      else
        Pow256Widths();
        Some((Blob(b[pos + 4..pos + 4 + n]), pos + 4 + Pad4(n)))
  }

  /** The arguments named by tags, read one after the other from pos. */
  function DecodeArgs(tags: seq<byte>, b: seq<byte>, pos: nat): (r: Option<seq<OscArg>>)
    requires pos <= |b|
    ensures r.Some? ==> |r.value| == |tags| && Tags(r.value) == tags
    decreases |tags|
  {
    if tags == [] then Some([])
    else
      match DecodeArg(tags[0], b, pos)
      case None => None
      case Some((a, next)) =>
        match DecodeArgs(tags[1..], b, next)
        case None => None
        case Some(rest) => Some([a] + rest)
  }

  /** One argument reads back as itself, wherever it is placed. */
  lemma DecodeEncodeArg(a: OscArg, b: seq<byte>, pos: nat)
    requires ValidArg(a) && At(b, pos, EncodeArg(a))
    ensures DecodeArg(TagOf(a), b, pos) == Some((a, pos + |EncodeArg(a)|))
  {
    if a.Str? {
      DecodeEncodeString(a.s, b, pos);
    } else if a.Blob? {
      DecodeEncodeBlob(a.data, b, pos);
    } else {
      DecodeEncodeFixed(a, b, pos);
    }
  }

  lemma DecodeEncodeFixed(a: OscArg, b: seq<byte>, pos: nat)
    requires !a.Str? && !a.Blob? && At(b, pos, EncodeArg(a))
    ensures DecodeArg(TagOf(a), b, pos) == Some((a, pos + |EncodeArg(a)|))
  {
    var x := EncodeArg(a);
    Pow256Widths();
    assert DecodeArg(TagOf(a), b, pos) == DecodeFixed(TagOf(a), b, pos);
    match a
    case Int32(v) => FromToBigEndian(Int32ToWord(v), 4);
    case Float32(bits) => FromToBigEndian(bits, 4);
    case Int64(v) => FromToBigEndian(Int64ToWord(v), 8);
    case Float64(bits) => FromToBigEndian(bits, 8);
    case Timetag(t) => FromToBigEndian(t, 8);
    case Midi(_, _, _, _) => AtPart(b, pos, x, 0, 4);
  }

  lemma DecodeEncodeString(s: seq<byte>, b: seq<byte>, pos: nat)
    requires NoNul(s) && At(b, pos, OscString(s))
    ensures DecodeArg(TagString, b, pos) == Some((Str(s), pos + |OscString(s)|))
  {
    var x := OscString(s);
    assert DecodeArg(TagString, b, pos) == DecodeString(b, pos);
    AtPart(b, pos, x, 0, |s| + 1);
    assert b[pos..pos + |s|] == s by {
      AtPart(b, pos, x, 0, |s|);
    }
    NulAfterCString(b, pos, s);
  }

  lemma DecodeEncodeBlob(d: seq<byte>, b: seq<byte>, pos: nat)
    requires |d| < TWO32 && At(b, pos, OscBlob(d))
    ensures DecodeArg(TagBlob, b, pos) == Some((Blob(d), pos + |OscBlob(d)|))
  {
    var x := OscBlob(d);
    assert DecodeArg(TagBlob, b, pos) == DecodeBlob(b, pos);
    AtPart(b, pos, x, 0, 4);
    AtPart(b, pos, x, 4, 4 + |d|);
  }

  /** A run of arguments reads back as itself, wherever it is placed. */
  lemma {:induction false} DecodeEncodeArgs(args: seq<OscArg>, b: seq<byte>, pos: nat)
    requires AllValid(args) && At(b, pos, EncodeArgs(args))
    ensures DecodeArgs(Tags(args), b, pos) == Some(args)
  {
    if args != [] {
      var x := EncodeArg(args[0]);
      var rest := EncodeArgs(args[1..]);
      assert EncodeArgs(args) == x + rest;
      AtSplit(b, pos, x, rest);
      DecodeEncodeArg(args[0], b, pos);
      DecodeEncodeArgs(args[1..], b, pos + |x|);
      TagsSplit(args);
      DecodeArgsStep(Tags(args), b, pos, args[0], pos + |x|, args[1..]);
    }
  }

  lemma TagsSplit(args: seq<OscArg>)
    requires args != []
    ensures Tags(args)[0] == TagOf(args[0]) && Tags(args)[1..] == Tags(args[1..])
    ensures [args[0]] + args[1..] == args
  {
  }

  /** DecodeArgs reads the first argument, then the rest from where it ends. */
  lemma DecodeArgsStep(tags: seq<byte>, b: seq<byte>, pos: nat, a: OscArg, next: nat, rest: seq<OscArg>)
    requires tags != [] && pos <= next <= |b|
    requires DecodeArg(tags[0], b, pos) == Some((a, next))
    requires DecodeArgs(tags[1..], b, next) == Some(rest)
    ensures DecodeArgs(tags, b, pos) == Some([a] + rest)
  {
  }

  /** Why a buffer is not a message. The codes returned are negative. */
  datatype ParseError =
    | MalformedAddress    // no NUL before the end, or not starting with '/'
    | MissingTypeTags     // no ',' where the padded address ends
    | MalformedTypeTags   // type tags not NUL-terminated, or their padding runs past the end

  function ErrorCode(e: ParseError): (code: int)
    ensures code < 0
  {
    match e
    case MalformedAddress => -1
    case MissingTypeTags => -2
    case MalformedTypeTags => -3
  }

  /** Where the parts of a message start, as offsets from its first byte:
      the first type tag (just after ',') and the first argument. */
  datatype Header = Header(format: nat, args: nat)

  /** The layout of the message in b, or why b does not hold one. */
  function ParseHeader(b: seq<byte>): (r: Result<Header, ParseError>)
    ensures r.Ok? ==> 0 < r.value.format <= r.value.args <= |b| && r.value.args % 4 == 0
    ensures r.Ok? ==> b[0] == Slash && b[r.value.format - 1] == Comma
    ensures r.Ok? ==> r.value.format - 1 == Pad4(NulFrom(b, 0) + 1)
    ensures r.Ok? ==> NulFrom(b, r.value.format) < |b|
    ensures r.Ok? ==> r.value.args == Pad4(NulFrom(b, r.value.format) + 1)
  {
    var a := NulFrom(b, 0);
    if a == |b| || b[0] != Slash then Err(MalformedAddress)
    else
      var f := Pad4(a + 1);
      if f >= |b| || b[f] != Comma then Err(MissingTypeTags)
      else
        var e := NulFrom(b, f + 1);
        if e == |b| || Pad4(e + 1) > |b| then Err(MalformedTypeTags)
        else Ok(Header(f + 1, Pad4(e + 1)))
  }

  /** The address of a parsed message: the C string it starts with. */
  function AddressOf(b: seq<byte>): (s: seq<byte>)
    requires ParseHeader(b).Ok?
    ensures ValidAddress(s) && |s| < |b| && b[..|s|] == s && b[|s|] == 0
  {
    var s := b[..NulFrom(b, 0)];
    assert NoNul(s) by {
      forall j | 0 <= j < |s| ensures s[j] != 0 { assert s[j] == b[j]; }
    }
    s
  }

  /** The type tags of a parsed message, without the leading ','. */
  function TypeTagsOf(b: seq<byte>): (s: seq<byte>)
    requires ParseHeader(b).Ok?
    ensures var f := ParseHeader(b).value.format;
            NoNul(s) && f + |s| < |b| && b[f..f + |s|] == s && b[f + |s|] == 0
  {
    var f := ParseHeader(b).value.format;
    var s := b[f..NulFrom(b, f)];
    assert NoNul(s) by {
      forall j | 0 <= j < |s| ensures s[j] != 0 { assert s[j] == b[f + j]; }
    }
    s
  }

  datatype Decoded = Decoded(address: seq<byte>, args: seq<OscArg>)

  /** A message's address and its arguments in type-tag order, or None when
      the header is malformed or an argument cannot be read. */
  function DecodeMessage(b: seq<byte>): (r: Option<Decoded>)
    ensures r.Some? ==> ValidAddress(r.value.address) && AllValid(r.value.args)
  {
    match ParseHeader(b)
    case Err(_) => None
    case Ok(h) =>
      match DecodeArgs(TypeTagsOf(b), b, h.args)
      case None => None
      case Some(args) =>
        assert AllValid(args) by {
          AllDecodedValid(TypeTagsOf(b), b, h.args);
        }
        Some(Decoded(AddressOf(b), args))
  }

  lemma {:induction false} AllDecodedValid(tags: seq<byte>, b: seq<byte>, pos: nat)
    requires pos <= |b| && DecodeArgs(tags, b, pos).Some?
    ensures AllValid(DecodeArgs(tags, b, pos).value)
    decreases |tags|
  {
    if tags != [] {
      var next := DecodeArg(tags[0], b, pos).value.1;
      AllDecodedValid(tags[1..], b, next);
    }
  }

  /** An address laid out as an OSC-string ends at its first NUL. */
  lemma AddressLaidOut(address: seq<byte>, b: seq<byte>)
    requires ValidAddress(address) && At(b, 0, OscString(address))
    ensures |address| < |b| && b[0] == Slash
    ensures NulFrom(b, 0) == |address| && b[..|address|] == address
  {
    var x := OscString(address);
    AtPart(b, 0, x, 0, |address| + 1);
    AtPart(b, 0, x, 0, |address|);
    NulAfterCString(b, 0, address);
  }

  /** Type tags laid out as the OSC-string ",tags" at f: the ',' is at f and
      the tags end at their first NUL. */
  lemma TagsLaidOut(tags: seq<byte>, b: seq<byte>, f: nat)
    requires NoNul(tags) && At(b, f, OscString([Comma] + tags))
    ensures f + 1 + |tags| < |b| && b[f] == Comma
    ensures NulFrom(b, f + 1) == f + 1 + |tags| && b[f + 1..f + 1 + |tags|] == tags
  {
    var y := OscString([Comma] + tags);
    AtPart(b, f, y, 0, |tags| + 2);
    AtPart(b, f, y, 1, |tags| + 1);
    assert y[1..|tags| + 1] == tags;
    NulAfterCString(b, f + 1, tags);
  }

  /** The header the encoder lays out is found where the encoder put it:
      the tags start after the padded address and its ',', the arguments
      after the padded type tags. */
  lemma ParseLaidOutHeader(address: seq<byte>, tags: seq<byte>, b: seq<byte>)
    requires ValidAddress(address) && NoNul(tags)
    requires At(b, 0, OscString(address))
    requires At(b, Pad4(|address| + 1), OscString([Comma] + tags))
    ensures var f := Pad4(|address| + 1);
            ParseHeader(b) == Ok(Header(f + 1, f + Pad4(|tags| + 2)))
  {
    var f := Pad4(|address| + 1);
    var p := f + |OscString([Comma] + tags)|;
    assert p == f + Pad4(|tags| + 2);
    HeaderLaidOut(address, tags, b, f, p);
  }

  /** ParseHeader's answer on a laid-out header, with the two offsets given. */
  lemma HeaderLaidOut(address: seq<byte>, tags: seq<byte>, b: seq<byte>, f: nat, p: nat)
    requires ValidAddress(address) && NoNul(tags)
    requires f == |OscString(address)| && p == f + |OscString([Comma] + tags)|
    requires At(b, 0, OscString(address)) && At(b, f, OscString([Comma] + tags))
    ensures ParseHeader(b) == Ok(Header(f + 1, p))
  {
    var e := f + 1 + |tags|;
    assert NulFrom(b, 0) == |address| && b[0] == Slash && b[f] == Comma
           && NulFrom(b, f + 1) == e && p <= |b| by {
      AddressLaidOut(address, b);
      TagsLaidOut(tags, b, f);
    }
    PaddedEnds(address, tags, f, p);
    HeaderAt(b, |address|, f, e, p);
  }

  /** The offsets of a laid-out header, as paddings of the two strings' ends. */
  lemma PaddedEnds(address: seq<byte>, tags: seq<byte>, f: nat, p: nat)
    requires f == |OscString(address)| && p == f + |OscString([Comma] + tags)|
    ensures f == Pad4(|address| + 1) && p == Pad4(f + 1 + |tags| + 1)
  {
    Pad4Shift(f, |tags| + 2);
  }

  /** ParseHeader's answer, from where the address and the type tags end. */
  lemma HeaderAt(b: seq<byte>, a: nat, f: nat, e: nat, p: nat)
    requires a < |b| && b[0] == Slash && NulFrom(b, 0) == a
    requires f == Pad4(a + 1) && f < |b| && b[f] == Comma
    requires NulFrom(b, f + 1) == e && e < |b| && p == Pad4(e + 1) && p <= |b|
    ensures ParseHeader(b) == Ok(Header(f + 1, p))
  {
  }

  /** The address and type tags the encoder lays out are the ones read back. */
  lemma PartsLaidOut(address: seq<byte>, tags: seq<byte>, b: seq<byte>, f: nat, p: nat)
    requires ValidAddress(address) && NoNul(tags)
    requires f == |OscString(address)| && p == f + |OscString([Comma] + tags)|
    requires At(b, 0, OscString(address)) && At(b, f, OscString([Comma] + tags))
    ensures ParseHeader(b) == Ok(Header(f + 1, p))
    ensures AddressOf(b) == address && TypeTagsOf(b) == tags
  {
    HeaderLaidOut(address, tags, b, f, p);
    AddressLaidOut(address, b);
    TagsLaidOut(tags, b, f);
  }

  /** Where the encoder puts the address, the type tags and the arguments. */
  lemma MessageLaidOut(address: seq<byte>, args: seq<OscArg>, post: seq<byte>)
    requires NoNul(address) && AllValid(args)
    ensures var x := OscString(address);
            var y := OscString([Comma] + Tags(args));
            var b := EncodeMessage(address, args) + post;
            At(b, 0, x) && At(b, |x|, y) && At(b, |x| + |y|, EncodeArgs(args))
  {
    var x := OscString(address);
    var y := OscString([Comma] + Tags(args));
    var body := EncodeArgs(args);
    AtConcat(x + y, body, post);
    AtPrefix(x + y, body + post);
    assert x + y + body + post == (x + y) + (body + post);
    AtSplit(x + y + body + post, 0, x, y);
  }

  /** Decoding what the encoder produced gives back the address and the
      argument values in type-tag order; bytes after the message are ignored. */
  lemma DecodeEncodeMessage(address: seq<byte>, args: seq<OscArg>, post: seq<byte>)
    requires ValidAddress(address) && AllValid(args)
    ensures DecodeMessage(EncodeMessage(address, args) + post) == Some(Decoded(address, args))
  {
    var f := |OscString(address)|;
    var p := f + |OscString([Comma] + Tags(args))|;
    MessageLaidOut(address, args, post);
    DecodeLaidOut(address, args, EncodeMessage(address, args) + post, f, p);
  }

  /** A buffer holding the three parts the encoder lays out decodes to them. */
  lemma DecodeLaidOut(address: seq<byte>, args: seq<OscArg>, b: seq<byte>, f: nat, p: nat)
    requires ValidAddress(address) && AllValid(args)
    requires f == |OscString(address)| && p == f + |OscString([Comma] + Tags(args))|
    requires At(b, 0, OscString(address)) && At(b, f, OscString([Comma] + Tags(args)))
    requires At(b, p, EncodeArgs(args))
    ensures DecodeMessage(b) == Some(Decoded(address, args))
  {
    var tags := Tags(args);
    PartsLaidOut(address, tags, b, f, p);
    DecodeEncodeArgs(args, b, p);
    DecodeParts(b, Header(f + 1, p), address, tags, args);
  }

  /** DecodeMessage's answer, from the header and the arguments read. */
  lemma DecodeParts(b: seq<byte>, h: Header, address: seq<byte>, tags: seq<byte>, args: seq<OscArg>)
    requires ParseHeader(b) == Ok(h) && AddressOf(b) == address
    requires TypeTagsOf(b) == tags && DecodeArgs(tags, b, h.args) == Some(args)
    ensures DecodeMessage(b) == Some(Decoded(address, args))
  {
  }

  /** The call in the firmware's loop, writeMessage with "/pot_1", "i" and a
      pot reading v: "/pot_1" and two NULs, ",i" and two NULs, then v as a
      big-endian two's complement word; 16 bytes whatever v is. A MIDI
      reading (0 to 127) is the last byte, after three zero bytes. */
  lemma PotMessageLayout(v: int32)
    ensures var address: seq<byte> := [0x2F, 0x70, 0x6F, 0x74, 0x5F, 0x31];
            EncodeMessage(address, [Int32(v)])
              == address + [0, 0, 0x2C, 0x69, 0, 0] + ToBigEndian(Int32ToWord(v), 4)
    ensures 0 <= v < 128 ==>
            EncodeMessage([0x2F, 0x70, 0x6F, 0x74, 0x5F, 0x31], [Int32(v)])
              == [0x2F, 0x70, 0x6F, 0x74, 0x5F, 0x31, 0, 0,
                  0x2C, 0x69, 0, 0,
                  0, 0, 0, v as byte]
  {
    var address: seq<byte> := [0x2F, 0x70, 0x6F, 0x74, 0x5F, 0x31];
    assert Tags([Int32(v)]) == [TagInt32];
    assert OscString(address) == address + [0, 0];
    assert OscString([Comma, TagInt32]) == [Comma, TagInt32, 0, 0];
    assert EncodeArgs([Int32(v)]) == ToBigEndian(Int32ToWord(v), 4) + [];
    if 0 <= v < 128 {
      assert ToBigEndian(Int32ToWord(v), 4) == [0, 0, 0, v as byte];
    }
  }

}

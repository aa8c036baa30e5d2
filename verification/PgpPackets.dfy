/**
 The OpenPGP packet walk of hetzner-host/cloudInit.ts, against the packet syntax of RFC 4880, section 4.2: old and
 new headers with definite lengths of one, two, four or five octets.
 */
module PgpPackets {
  import opened Common

  datatype PacketError = Truncated | NotAPacket | PartialLength | IndeterminateLength

  // ---- The syntax ----

  /** How a packet's header is written; a length may be written in any form that fits it. */
  datatype Form = Old(width: nat) | NewOneOctet | NewTwoOctets | NewFiveOctets

  datatype Packet = Packet(tag: nat, form: Form, body: seq<Byte>)

  function Pow256(n: nat): nat {
    if n == 0 then 1 else 256 * Pow256(n - 1)
  }

  /** A number in `width` octets, most significant first. */
  function BigEndian(value: nat, width: nat): (r: seq<Byte>)
    ensures |r| == width
  {
    if width == 0 then [] else BigEndian(value / 256, width - 1) + [value % 256]
  }

  /** The number octets denote, most significant first. */
  function FromBigEndian(octets: seq<Byte>): nat {
    if octets == [] then 0 else FromBigEndian(octets[..|octets| - 1]) * 256 + octets[|octets| - 1]
  }

  /** Whether a packet can be written: its tag and its length fit the form. */
  predicate Writable(p: Packet) {
    match p.form
    case Old(width) => p.tag < 16 && (width == 1 || width == 2 || width == 4) && |p.body| < Pow256(width)
    case NewOneOctet => p.tag < 64 && |p.body| < 192
    case NewTwoOctets => p.tag < 64 && 192 <= |p.body| < 8384
    case NewFiveOctets => p.tag < 64 && |p.body| < Pow256(4)
  }

  function LengthType(width: nat): nat {
    if width == 1 then 0 else if width == 2 then 1 else 2
  }

  function Header(p: Packet): seq<Byte>
    requires Writable(p)
  {
    match p.form
    case Old(width) => [128 + 4 * p.tag + LengthType(width)] + BigEndian(|p.body|, width)
    case NewOneOctet => [192 + p.tag, |p.body|]
    case NewTwoOctets => [192 + p.tag, 192 + (|p.body| - 192) / 256, (|p.body| - 192) % 256]
    case NewFiveOctets => [192 + p.tag, 255] + BigEndian(|p.body|, 4)
  }

  function Write(p: Packet): seq<Byte>
    requires Writable(p)
  {
    Header(p) + p.body
  }

  function WriteAll(ps: seq<Packet>): seq<Byte>
    requires forall k :: 0 <= k < |ps| ==> Writable(ps[k])
  {
    if ps == [] then [] else Write(ps[0]) + WriteAll(ps[1..])
  }

  function Tags(ps: seq<Packet>): seq<nat> {
    if ps == [] then [] else [ps[0].tag] + Tags(ps[1..])
  }

  // ---- Reading one header ----

  /** A header read at the front of some bytes: the tag, how it was written, its size and the body's. */
  datatype ReadHeader = ReadHeader(tag: nat, form: Form, size: nat, length: nat)

  function ReadNumber(bytes: seq<Byte>, at: nat, width: nat): Result<nat, PacketError> {
    if at + width <= |bytes| then Ok(FromBigEndian(bytes[at..at + width])) else Err(Truncated)
  }

  /** The header at the front of non-empty bytes; the bits of the first octet decide its form. */
  function ReadFront(bytes: seq<Byte>): (r: Result<ReadHeader, PacketError>)
    requires bytes != []
    ensures r.Ok? ==> r.value.size >= 2
  {
    var header := bytes[0];
    if header < 128 then Err(NotAPacket)
    else if header >= 192 then
      var tag := header % 64;
      if |bytes| < 2 then Err(Truncated)
      else
        var first: nat := bytes[1];
        if first < 192 then Ok(ReadHeader(tag, NewOneOctet, 2, first))
        else if first < 224 then
          if |bytes| < 3 then Err(Truncated)
          else Ok(ReadHeader(tag, NewTwoOctets, 3, (first - 192) * 256 + bytes[2] + 192))
        else if first == 255 then
          var length := ReadNumber(bytes, 2, 4);
          if length.Err? then Err(length.error) else Ok(ReadHeader(tag, NewFiveOctets, 6, length.value))
        else Err(PartialLength)
    else
      var tag := header / 4 % 16;
      if header % 4 == 3 then Err(IndeterminateLength)
      else
        var width := if header % 4 == 0 then 1 else if header % 4 == 1 then 2 else 4;
        var length := ReadNumber(bytes, 1, width);
        if length.Err? then Err(length.error) else Ok(ReadHeader(tag, Old(width), 1 + width, length.value))
  }

  function Prepended(tags: seq<nat>, rest: Result<seq<nat>, PacketError>): Result<seq<nat>, PacketError> {
    if rest.Err? then rest else Ok(tags + rest.value)
  }

  lemma PrependedTwice(a: seq<nat>, b: seq<nat>, rest: Result<seq<nat>, PacketError>)
    ensures Prepended(a, Prepended(b, rest)) == Prepended(a + b, rest)
    ensures Prepended([], rest) == rest
  {
    if rest.Ok? {
      assert a + (b + rest.value) == a + b + rest.value;
      assert [] + rest.value == rest.value;
    }
  }

  /** The tags of the packets the bytes are made of, or the first fault met. */
  function Walk(bytes: seq<Byte>): Result<seq<nat>, PacketError>
    decreases |bytes|
  {
    if bytes == [] then Ok([])
    else
      var header := ReadFront(bytes);
      if header.Err? then Err(header.error)
      else
        var next := header.value.size + header.value.length;
        if next > |bytes| then Err(Truncated)
        else Prepended([header.value.tag], Walk(bytes[next..]))
  }

  /** What the masks and shifts of the first octet are, as numbers. */
  lemma HeaderBits(header: bv8)
    ensures header & 0x80 == 0 <==> header as nat < 128
    ensures header as nat >= 128 ==> (header & 0x40 != 0 <==> header as nat >= 192)
    ensures (header & 0x3f) as nat == header as nat % 64
    ensures ((header >> 2) & 0x0f) as nat == header as nat / 4 % 16
    ensures (header & 0x03) as nat == header as nat % 4
  {
    FormBits(header);
    BitsInOrder(header, 128);
    BitsInOrder(header, 192);
    TagBits(header);
    NewTagBits(header);
    LengthTypeBits(header);
  }

  lemma FormBits(header: bv8)
    ensures header & 0x80 == 0 <==> header < 128
    ensures header >= 128 ==> (header & 0x40 != 0 <==> header >= 192)
  {
  }

  lemma BitsInOrder(a: bv8, b: bv8)
    ensures a < b <==> a as nat < b as nat
  {
  }

  lemma TagBits(header: bv8)
    ensures ((header >> 2) & 0x0f) as nat == header as nat / 4 % 16
  {
    TagMask(header);
    QuarterBits(header);
    SixteenthBits(header / 4);
  }

  lemma TagMask(header: bv8)
    ensures (header >> 2) & 0x0f == header / 4 % 16
  {
  }

  lemma QuarterBits(header: bv8)
    ensures (header / 4) as nat == header as nat / 4
  {
  }

  lemma SixteenthBits(quarter: bv8)
    ensures (quarter % 16) as nat == quarter as nat % 16
  {
  }

  lemma NewTagBits(header: bv8)
    ensures (header & 0x3f) as nat == header as nat % 64
  {
    assert header & 0x3f == header % 64;
  }

  lemma LengthTypeBits(header: bv8)
    ensures (header & 0x03) as nat == header as nat % 4
  {
    assert header & 0x03 == header % 4;
  }

  /** `1 << lengthType`: the octets of an old header's length. */
  lemma WidthBits(lengthType: bv8)
    requires lengthType <= 2
    ensures (1 as bv8 << lengthType) as nat == if lengthType == 0 then 1 else if lengthType == 1 then 2 else 4
  {
  }

  /** The masks and shifts of a header octet: its two marks, the tag in either form, and the octets of an old length. */
  method HeaderOctet(octet: Byte) returns (isPacket: bool, isNew: bool, newTag: nat, oldTag: nat, lengthType: nat, width: nat)
    ensures isPacket == (octet >= 128) && (isPacket ==> isNew == (octet >= 192))
    ensures newTag == octet % 64 && oldTag == octet / 4 % 16 && lengthType == octet % 4
    ensures lengthType != 3 ==> width == if lengthType == 0 then 1 else if lengthType == 1 then 2 else 4
  {
    var header := octet as bv8;
    assert header as nat == octet;
    HeaderBits(header);
    isPacket, isNew := header & 0x80 != 0, header & 0x40 != 0;
    newTag, oldTag := (header & 0x3f) as nat, ((header >> 2) & 0x0f) as nat;
    var low := header & 0x03;
    lengthType, width := low as nat, 0;
    if low != 3 {
      WidthBits(low);
      width := (1 as bv8 << low) as nat;
    }
  }

  /** One turn of the walk: the header at the cursor, and the cursor after it. */
  method HeaderAt(bytes: seq<Byte>, start: nat) returns (fault: Option<PacketError>, tag: nat, length: nat, at: nat)
    requires start < |bytes|
    ensures match ReadFront(bytes[start..])
            case Err(error) => fault == Some(error)
            case Ok(h) => fault.None? && tag == h.tag && length == h.length && at == start + h.size
  {
    ghost var rest := bytes[start..];
    fault, tag, length, at := None, 0, 0, start;
    var isPacket, isNew, newTag, oldTag, lengthType, width := HeaderOctet(bytes[at]);
    at := at + 1;
    if !isPacket {
      fault := Some(NotAPacket);
    } else if isNew {
      tag := newTag;
      if at >= |bytes| {
        return Some(Truncated), tag, length, at;
      }
      var first: nat := bytes[at];
      at := at + 1;
      if first < 192 {
        length := first;
      } else if first < 224 {
        if at >= |bytes| {
          return Some(Truncated), tag, length, at;
        }
        length := (first - 192) * 256 + bytes[at] + 192;
        at := at + 1;
      } else if first == 255 {
        fault, length := ReadOctets(bytes, at, 4);
        assert fault.None? ==> rest[2..6] == bytes[at..at + 4];
        at := at + 4;
      } else {
        fault := Some(PartialLength);
      }
    } else {
      tag := oldTag;
      if lengthType == 3 {
        return Some(IndeterminateLength), tag, length, at;
      }
      fault, length := ReadOctets(bytes, at, width);
      assert fault.None? ==> rest[1..1 + width] == bytes[at..at + width];
      at := at + width;
    }
  }

  /** The walk as the program makes it, with a cursor. */
  method PgpPacketTags(bytes: seq<Byte>) returns (result: Result<seq<nat>, PacketError>)
    ensures result == Walk(bytes)
  {
    hide ReadFront;
    var tags: seq<nat> := [];
    var at := 0;
    assert bytes[at..] == bytes;
    PrependedTwice([], [], Walk(bytes));
    while at < |bytes|
      invariant at <= |bytes|
      invariant Walk(bytes) == Prepended(tags, Walk(bytes[at..]))
      decreases |bytes| - at
    {
      var start := at;
      var fault, tag, length;
      fault, tag, length, at := HeaderAt(bytes, start);
      if fault.Some? {
        return Err(fault.value);
      }
      if at + length > |bytes| {
        return Err(Truncated);
      }
      at := at + length;
      assert bytes[start..][at - start..] == bytes[at..];
      PrependedTwice(tags, [tag], Walk(bytes[at..]));
      tags := tags + [tag];
    }
    assert bytes[at..] == [] && tags + [] == tags;
    result := Ok(tags);
  }

  /** The loop that reads a length octet by octet. */
  method ReadOctets(bytes: seq<Byte>, at: nat, width: nat) returns (fault: Option<PacketError>, length: nat)
    requires at <= |bytes|
    ensures match ReadNumber(bytes, at, width)
            case Err(error) => fault == Some(error)
            case Ok(number) => fault.None? && length == number
  {
    fault, length := None, 0;
    for index := 0 to width
      invariant fault.None? && at + index <= |bytes|
      invariant length == FromBigEndian(bytes[at..at + index])
    {
      if at + index >= |bytes| {
        return Some(Truncated), 0;
      }
      length := length * 256 + bytes[at + index];
      assert bytes[at..at + index + 1][..index] == bytes[at..at + index];
    }
  }

  // ---- Numbers in octets ----

  lemma {:induction false} NumberRoundTrip(value: nat, width: nat)
    requires value < Pow256(width)
    ensures FromBigEndian(BigEndian(value, width)) == value
  {
    if width > 0 {
      NumberRoundTrip(value / 256, width - 1);
      assert BigEndian(value, width)[..width - 1] == BigEndian(value / 256, width - 1);
    }
  }

  lemma {:induction false} OctetsRoundTrip(octets: seq<Byte>)
    ensures FromBigEndian(octets) < Pow256(|octets|)
    ensures BigEndian(FromBigEndian(octets), |octets|) == octets
  {
    if octets != [] {
      OctetsRoundTrip(octets[..|octets| - 1]);
      assert octets == octets[..|octets| - 1] + [octets[|octets| - 1]];
    }
  }

  // ---- One header, read and written ----

  predicate ReadsBack(p: Packet, bytes: seq<Byte>)
    requires Writable(p) && bytes != []
  {
    ReadFront(bytes) == Ok(ReadHeader(p.tag, p.form, |Header(p)|, |p.body|))
  }

  lemma OldIsRead(p: Packet, bytes: seq<Byte>)
    requires Writable(p) && p.form.Old? && Header(p) <= bytes
    ensures ReadsBack(p, bytes)
  {
    var width := p.form.width;
    var header := Header(p);
    assert bytes[0] == header[0];
    NumberRoundTrip(|p.body|, width);
    assert bytes[1..1 + width] == header[1..1 + width] == BigEndian(|p.body|, width);
  }

  lemma NewIsRead(p: Packet, bytes: seq<Byte>)
    requires Writable(p) && !p.form.Old? && Header(p) <= bytes
    ensures ReadsBack(p, bytes)
  {
    var header := Header(p);
    assert bytes[0] == header[0] && bytes[1] == header[1];
    match p.form {
      case NewFiveOctets =>
        NumberRoundTrip(|p.body|, 4);
        assert bytes[2..6] == header[2..6] == BigEndian(|p.body|, 4);
      case NewTwoOctets =>
        assert bytes[2] == header[2];
      case _ =>
    }
  }

  /** What a packet writes is read back as that packet's header, whatever follows. */
  lemma WrittenIsRead(p: Packet, rest: seq<Byte>)
    requires Writable(p)
    ensures ReadsBack(p, Write(p) + rest)
  {
    hide ReadsBack;
    assert Header(p) <= Write(p) + rest;
    if p.form.Old? {
      OldIsRead(p, Write(p) + rest);
    } else {
      NewIsRead(p, Write(p) + rest);
    }
  }

  /** The packet a header describes, taken from the front of the bytes. */
  function FrontPacket(bytes: seq<Byte>, h: ReadHeader): Packet
    requires h.size + h.length <= |bytes|
  {
    Packet(h.tag, h.form, bytes[h.size..h.size + h.length])
  }

  lemma OldOctet(octet: nat)
    requires 128 <= octet < 192 && octet % 4 != 3
    ensures 128 + 4 * (octet / 4 % 16) + LengthType(if octet % 4 == 0 then 1 else if octet % 4 == 1 then 2 else 4) == octet
  {
  }

  lemma OldIsWritten(bytes: seq<Byte>, h: ReadHeader)
    requires bytes != [] && bytes[0] < 192 && ReadFront(bytes) == Ok(h) && h.size + h.length <= |bytes|
    ensures Writable(FrontPacket(bytes, h)) && Header(FrontPacket(bytes, h)) == bytes[..h.size]
  {
    hide FromBigEndian, BigEndian, Pow256;
    OldOctet(bytes[0]);
    OctetsRoundTrip(bytes[1..h.size]);
    assert bytes[..h.size] == [bytes[0]] + bytes[1..h.size];
  }

  lemma NewIsWritten(bytes: seq<Byte>, h: ReadHeader)
    requires bytes != [] && bytes[0] >= 192 && ReadFront(bytes) == Ok(h) && h.size + h.length <= |bytes|
    ensures Writable(FrontPacket(bytes, h)) && Header(FrontPacket(bytes, h)) == bytes[..h.size]
  {
    if h.form.NewFiveOctets? {
      OctetsRoundTrip(bytes[2..6]);
      assert bytes[..6] == [bytes[0], bytes[1]] + bytes[2..6];
    }
  }

  /** A header that is read, with its whole body there, is exactly what one packet writes. */
  lemma ReadIsWritten(bytes: seq<Byte>, h: ReadHeader)
    requires bytes != [] && ReadFront(bytes) == Ok(h) && h.size + h.length <= |bytes|
    ensures Writable(FrontPacket(bytes, h)) && Write(FrontPacket(bytes, h)) == bytes[..h.size + h.length]
  {
    hide ReadFront, Header, Writable;
    if bytes[0] < 192 {
      OldIsWritten(bytes, h);
    } else {
      NewIsWritten(bytes, h);
    }
    assert bytes[..h.size] + bytes[h.size..h.size + h.length] == bytes[..h.size + h.length];
  }

  // ---- The whole walk ----

  predicate AllWritable(ps: seq<Packet>) {
    forall k :: 0 <= k < |ps| ==> Writable(ps[k])
  }

  /** Walking any encoding of a list of packets returns their tags, in order. */
  lemma {:induction false} WalkOfPackets(ps: seq<Packet>)
    requires AllWritable(ps)
    ensures Walk(WriteAll(ps)) == Ok(Tags(ps))
    decreases |ps|
  {
    hide ReadFront, Writable;
    if ps != [] {
      var rest := WriteAll(ps[1..]);
      WrittenIsRead(ps[0], rest);
      WalkOfPackets(ps[1..]);
      assert WriteAll(ps)[|Write(ps[0])|..] == rest;
    }
  }

  lemma WalkOfFirst(bytes: seq<Byte>)
    requires bytes != [] && Walk(bytes).Ok?
    ensures ReadFront(bytes).Ok?
    ensures var h := ReadFront(bytes).value;
            && h.size + h.length <= |bytes| && Walk(bytes[h.size + h.length..]).Ok?
            && Walk(bytes).value == [h.tag] + Walk(bytes[h.size + h.length..]).value
  {
    hide ReadFront;
  }

  lemma WritingOfFirst(p: Packet, rest: seq<Packet>)
    requires Writable(p) && AllWritable(rest)
    ensures AllWritable([p] + rest) && WriteAll([p] + rest) == Write(p) + WriteAll(rest) && Tags([p] + rest) == [p.tag] + Tags(rest)
  {
    hide Writable;
    assert ([p] + rest)[1..] == rest;
  }

  /** Bytes the walk accepts are an encoding of a list of packets with the tags returned: every byte is accounted for. */
  lemma {:induction false} AcceptedIsPackets(bytes: seq<Byte>) returns (ps: seq<Packet>)
    requires Walk(bytes).Ok?
    ensures AllWritable(ps) && WriteAll(ps) == bytes && Tags(ps) == Walk(bytes).value
    decreases |bytes|
  {
    if bytes == [] {
      ps := [];
    } else {
      WalkOfFirst(bytes);
      hide ReadFront, Writable, Walk, WriteAll, Tags;
      var h := ReadFront(bytes).value;
      var next := h.size + h.length;
      ReadIsWritten(bytes, h);
      var rest := AcceptedIsPackets(bytes[next..]);
      WritingOfFirst(FrontPacket(bytes, h), rest);
      ps := [FrontPacket(bytes, h)] + rest;
      assert bytes == bytes[..next] + bytes[next..];
    }
  }

  /** The packets are determined by their bytes. */
  lemma {:induction false} PacketsAreUnique(a: seq<Packet>, b: seq<Packet>)
    requires AllWritable(a) && AllWritable(b) && WriteAll(a) == WriteAll(b)
    ensures a == b
    decreases |a|
  {
    hide ReadFront, Writable;
    if a == [] {
      WalkOfPackets(a);
      WalkOfPackets(b);
    } else if b != [] {
      var restA, restB := WriteAll(a[1..]), WriteAll(b[1..]);
      WrittenIsRead(a[0], restA);
      WrittenIsRead(b[0], restB);
      var bytes := WriteAll(a);
      assert bytes[|Header(a[0])|..|Write(a[0])|] == a[0].body;
      assert bytes[|Header(b[0])|..|Write(b[0])|] == b[0].body;
      assert a[0] == b[0];
      assert bytes[|Write(a[0])|..] == restA && bytes[|Write(b[0])|..] == restB;
      PacketsAreUnique(a[1..], b[1..]);
      assert a == [a[0]] + a[1..] && b == [b[0]] + b[1..];
    }
  }

  /**
   Packet walk exactness: the bytes are accepted exactly when they are a list of packets written one after another;
   that list is unique, and its tags, in order, are the result.
   */
  lemma WalkIsExact(bytes: seq<Byte>)
    ensures Walk(bytes).Ok? <==> exists ps :: AllWritable(ps) && WriteAll(ps) == bytes
    ensures forall ps, qs :: AllWritable(ps) && AllWritable(qs) && WriteAll(ps) == bytes && WriteAll(qs) == bytes ==>
              ps == qs && Walk(bytes) == Ok(Tags(ps))
  {
    hide ReadFront, Writable, Walk, WriteAll;
    if Walk(bytes).Ok? {
      var ps := AcceptedIsPackets(bytes);
    }
    forall ps | AllWritable(ps) && WriteAll(ps) == bytes
      ensures Walk(bytes) == Ok(Tags(ps))
    {
      WalkOfPackets(ps);
    }
    forall ps, qs | AllWritable(ps) && AllWritable(qs) && WriteAll(ps) == bytes && WriteAll(qs) == bytes
      ensures ps == qs
    {
      PacketsAreUnique(ps, qs);
    }
  }

  /** A packet wholly read is read the same with more after it. */
  lemma FrontIsReadTheSame(a: seq<Byte>, b: seq<Byte>, h: ReadHeader)
    requires a != [] && ReadFront(a) == Ok(h) && h.size + h.length <= |a|
    ensures ReadFront(a + b) == Ok(h)
  {
    hide ReadFront, Header, Writable;
    var next := h.size + h.length;
    ReadIsWritten(a, h);
    var p := FrontPacket(a, h);
    assert a == a[..next] + a[next..];
    assert a + b == Write(p) + (a[next..] + b);
    WrittenIsRead(p, a[next..] + b);
    WrittenIsRead(p, a[next..]);
  }

  /** Walking accepted data and then more gives the first tags, then the rest's tags or the rest's fault. */
  lemma {:induction false} WalkOfConcatenation(a: seq<Byte>, b: seq<Byte>)
    requires Walk(a).Ok?
    ensures Walk(a + b) == Prepended(Walk(a).value, Walk(b))
    decreases |a|
  {
    hide ReadFront, Writable;
    if a == [] {
      assert a + b == b;
      PrependedTwice([], [], Walk(b));
    } else {
      var h := ReadFront(a).value;
      var next := h.size + h.length;
      FrontIsReadTheSame(a, b, h);
      assert (a + b)[next..] == a[next..] + b;
      WalkOfConcatenation(a[next..], b);
      PrependedTwice([h.tag], Walk(a[next..]).value, Walk(b));
    }
  }

  // ---- What is refused, and why ----

  /** The octets a header needs, by its first two; none when it has no definite length. */
  function HeaderSize(first: Byte, second: Byte): Option<nat> {
    if first < 192 then
      if first % 4 == 0 then Some(2) else if first % 4 == 1 then Some(3) else if first % 4 == 2 then Some(5) else None
    else if second < 192 then Some(2)
    else if second < 224 then Some(3)
    else if second == 255 then Some(6)
    else None
  }

  /** Why the front of some bytes is no header: a first octet without the mark, a length of neither end, or too few octets. */
  lemma FrontFaults(bytes: seq<Byte>)
    requires bytes != []
    ensures ReadFront(bytes) == Err(NotAPacket) <==> bytes[0] < 128
    ensures ReadFront(bytes) == Err(IndeterminateLength) <==> 128 <= bytes[0] < 192 && bytes[0] % 4 == 3
    ensures ReadFront(bytes) == Err(PartialLength) <==> bytes[0] >= 192 && |bytes| >= 2 && 224 <= bytes[1] < 255
    ensures ReadFront(bytes) == Err(Truncated) <==>
            bytes[0] >= 128 && !(bytes[0] < 192 && bytes[0] % 4 == 3) &&
            (|bytes| == 1 || (HeaderSize(bytes[0], bytes[1]).Some? && |bytes| < HeaderSize(bytes[0], bytes[1]).value))
    ensures ReadFront(bytes).Ok? ==> |bytes| >= 2 && HeaderSize(bytes[0], bytes[1]) == Some(ReadFront(bytes).value.size)
  {
  }

  /** The first fault in the data: what is wrong at the front of `rest`, or a body that runs past the end. */
  predicate FaultAtFront(rest: seq<Byte>, error: PacketError) {
    rest != [] &&
    match ReadFront(rest)
    case Err(fault) => error == fault
    case Ok(h) => h.size + h.length > |rest| && error == Truncated
  }

  /** Data is refused exactly when some whole packets are followed by a fault, and that fault is the one reported. */
  lemma {:induction false} RefusedAtFault(bytes: seq<Byte>) returns (ps: seq<Packet>, rest: seq<Byte>)
    requires Walk(bytes).Err?
    ensures AllWritable(ps) && bytes == WriteAll(ps) + rest && FaultAtFront(rest, Walk(bytes).error)
    decreases |bytes|
  {
    hide ReadFront, Writable;
    var header := ReadFront(bytes);
    if header.Err? || header.value.size + header.value.length > |bytes| {
      ps, rest := [], bytes;
      assert WriteAll([]) + bytes == bytes;
    } else {
      var h := header.value;
      var next := h.size + h.length;
      ReadIsWritten(bytes, h);
      var more, last := RefusedAtFault(bytes[next..]);
      ps, rest := [FrontPacket(bytes, h)] + more, last;
      assert ps[1..] == more;
      assert bytes == bytes[..next] + bytes[next..] == Write(ps[0]) + (WriteAll(more) + rest);
      assert Write(ps[0]) + (WriteAll(more) + rest) == Write(ps[0]) + WriteAll(more) + rest;
    }
  }

  lemma FaultIsReported(ps: seq<Packet>, rest: seq<Byte>, error: PacketError)
    requires AllWritable(ps) && FaultAtFront(rest, error)
    ensures Walk(WriteAll(ps) + rest) == Err(error)
  {
    WalkOfPackets(ps);
    assert Walk(rest) == Err(error);
    hide ReadFront, Writable, Walk, WriteAll;
    WalkOfConcatenation(WriteAll(ps), rest);
  }

  // ---- Public keys only ----

  const PUBLIC_PACKET_TAGS := {2, 6, 13, 14, 17}
  const PUBLIC_KEY_TAG := 6

  /** The check on a signer's data: it starts with a public key, and holds nothing but a public key's packets. */
  predicate IsPublicKeyData(bytes: seq<Byte>) {
    var tags := Walk(bytes);
    tags.Ok? && tags.value != [] && tags.value[0] == PUBLIC_KEY_TAG && forall tag :: tag in tags.value ==> tag in PUBLIC_PACKET_TAGS
  }

  /** A secret key or secret subkey packet anywhere in the data, in any header form, is refused. */
  lemma SecretKeysAreRefused(before: seq<Packet>, secret: Packet, after: seq<Packet>)
    requires AllWritable(before + [secret] + after) && (secret.tag == 5 || secret.tag == 7)
    ensures !IsPublicKeyData(WriteAll(before + [secret] + after))
  {
    hide ReadFront, Writable, Walk, WriteAll;
    var ps := before + [secret] + after;
    WalkOfPackets(ps);
    TagOfMember(ps, |before|);
  }

  lemma {:induction false} TagOfMember(ps: seq<Packet>, k: nat)
    requires k < |ps|
    ensures ps[k].tag in Tags(ps)
  {
    if k > 0 {
      TagOfMember(ps[1..], k - 1);
    }
  }

  /** The packets of an exported public key: the key itself, then signatures, trust, user ids, subkeys and attributes. */
  predicate ArePublicKey(ps: seq<Packet>) {
    && ps != [] && ps[0].tag == 6
    && forall k :: 0 <= k < |ps| ==> ps[k].tag == 2 || ps[k].tag == 6 || ps[k].tag == 13 || ps[k].tag == 14 || ps[k].tag == 17
  }

  /** Packets are a signer's data exactly when the first is a public key and every one belongs to a public key. */
  lemma PublicKeyIsAccepted(ps: seq<Packet>)
    requires AllWritable(ps)
    ensures IsPublicKeyData(WriteAll(ps)) <==> ArePublicKey(ps)
  {
    hide ReadFront, Writable, Walk, WriteAll;
    WalkOfPackets(ps);
    TagsInOrder(ps);
    if ArePublicKey(ps) {
      forall tag | tag in Tags(ps)
        ensures tag in PUBLIC_PACKET_TAGS
      {
        var k :| 0 <= k < |ps| && Tags(ps)[k] == tag;
      }
    } else if IsPublicKeyData(WriteAll(ps)) {
      forall k | 0 <= k < |ps|
        ensures ps[k].tag in PUBLIC_PACKET_TAGS
      {
        TagOfMember(ps, k);
      }
    }
  }

  lemma {:induction false} TagsInOrder(ps: seq<Packet>)
    ensures |Tags(ps)| == |ps| && forall k :: 0 <= k < |ps| ==> Tags(ps)[k] == ps[k].tag
  {
    if ps != [] {
      TagsInOrder(ps[1..]);
    }
  }

  /** Bytes pass the check on a signer's data exactly when they are the packets of a public key, written one after another. */
  lemma PublicKeyIsExact(bytes: seq<Byte>)
    ensures IsPublicKeyData(bytes) <==> exists ps :: AllWritable(ps) && WriteAll(ps) == bytes && ArePublicKey(ps)
  {
    if IsPublicKeyData(bytes) {
      var ps := AcceptedIsPackets(bytes);
      PublicKeyIsAccepted(ps);
    }
    if ps :| AllWritable(ps) && WriteAll(ps) == bytes && ArePublicKey(ps) {
      PublicKeyIsAccepted(ps);
    }
  }
}

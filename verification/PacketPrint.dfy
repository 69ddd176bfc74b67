/** Packet_printf of net.c, the writing side of Packet_scanf, and when the one reads what
    the other has written. */
module PacketPrint {
  import opened Bytes
  import opened Options
  import opened Sockets

  predicate IsText(item: Item) { item.SmallString? || item.BigString? }

  // An argument of the type that the conversion takes; a C string holds no NUL byte.
  predicate TypeFits(item: Item, v: Value) {
    if IsText(item) then v.Text? && 0 !in v.bytes else v.Number?
  }

  predicate TypesFit(fmt: seq<Item>, values: seq<Value>) {
    |values| == |fmt| && forall i :: 0 <= i < |fmt| ==> TypeFits(fmt[i], values[i])
  }

  // All the bytes of an argument: of a number the low ones, the highest first, of a
  // string its NUL byte, too.
  function Encoded(item: Item, v: Value): (s: seq<Byte>)
    requires TypeFits(item, v)
    ensures !IsText(item) ==> |s| == Width(item)
    ensures s != []
  {
    match item
    case Char => [v.n % 0x100]
    case Int => PutLong(v.n)
    case Short => PutShort(v.n)
    case UShort => PutShort(v.n)
    case Long => PutLong(v.n)
    case SmallString => v.bytes + [0]
    case BigString => v.bytes + [0]
  }

  function Min(a: int, b: int): int { if a < b then a else b }

  // What is written where there is room for that many bytes. A number needs room for one
  // byte more than its own; a string is cut off at its limit and at the end of the room.
  function PrintItem(item: Item, v: Value, room: int): (r: Option<seq<Byte>>)
    requires TypeFits(item, v)
    ensures r.Some? ==> |r.value| <= room
  {
    if IsText(item) then
      if room < 0 then None else Some(Encoded(item, v)[..Min(|v.bytes| + 1, Min(StringLimit(item), room))])
    else if Width(item) >= room then None
    else Some(Encoded(item, v))
  }

  function Print(fmt: seq<Item>, values: seq<Value>, room: int): (r: Option<seq<Byte>>)
    requires TypesFit(fmt, values)
  {
    if fmt == [] then Some([])
    else
      match PrintItem(fmt[0], values[0], room)
      case None => None
      case Some(first) =>
        (match Print(fmt[1..], values[1..], room - |first|)
         case None => None
         case Some(rest) => Some(first + rest))
  }

  // The buffer after a packet has been written to it: nothing is written when a number
  // finds too little room before the spare bytes at the end.
  function PrintTo(buf: Sockbuf, fmt: seq<Item>, values: seq<Value>): Sockbuf
    requires TypesFit(fmt, values)
  {
    match Print(fmt, values, Room(buf))
    case None => buf
    case Some(s) => buf.(data := buf.data + s)
  }

  function Room(buf: Sockbuf): int { buf.size - SOCKBUF_WRITE_SPARE - |buf.data| }

  // The number is one that the field can hold; the string, with its NUL byte, is within
  // its limit and the room.
  predicate ItemFits(item: Item, v: Value, room: int)
    requires TypeFits(item, v)
  {
    match item
    case Char => 0 <= v.n < 0x100
    case Int => -0x8000_0000 <= v.n < 0x8000_0000
    case Short => -0x8000 <= v.n < 0x8000
    case UShort => 0 <= v.n < 0x1_0000
    case Long => -0x8000_0000 <= v.n < 0x8000_0000
    case SmallString => |v.bytes| < MAX_CHARS && |v.bytes| < room
    case BigString => |v.bytes| < MSG_LEN && |v.bytes| < room
  }

  predicate AllFit(fmt: seq<Item>, values: seq<Value>, room: int)
    requires TypesFit(fmt, values)
  {
    fmt == [] || (ItemFits(fmt[0], values[0], room)
                  && AllFit(fmt[1..], values[1..], room - |Encoded(fmt[0], values[0])|))
  }

  function EncodedAll(fmt: seq<Item>, values: seq<Value>): seq<Byte>
    requires TypesFit(fmt, values)
  {
    if fmt == [] then [] else Encoded(fmt[0], values[0]) + EncodedAll(fmt[1..], values[1..])
  }

  // ---- Strings ----

  // A string is read as the bytes up to its NUL byte, in their order.
  lemma {:induction false} StringIsExact(s: seq<Byte>, limit: nat)
    requires ScanString(s, limit).Complete?
    ensures var r := ScanString(s, limit);
      0 !in r.values[0].bytes && s[..r.used] == r.values[0].bytes + [0] && (r.used <= limit || r.used == 1)
  {
    if s[0] != 0 {
      StringIsExact(s[1..], limit - 1);
      var r := ScanString(s[1..], limit - 1);
      assert s[..r.used + 1] == [s[0]] + s[1..][..r.used];
    }
  }

  lemma {:induction false} StringIsFound(bytes: seq<Byte>, rest: seq<Byte>, limit: nat)
    requires 0 !in bytes && |bytes| < limit
    ensures ScanString(bytes + [0] + rest, limit) == Complete(|bytes| + 1, [Text(bytes)])
  {
    var s := bytes + [0] + rest;
    if bytes != [] {
      StringIsFound(bytes[1..], rest, limit - 1);
      assert s[1..] == bytes[1..] + [0] + rest && s[0] == bytes[0] && bytes[0] in bytes;
      assert [bytes[0]] + bytes[1..] == bytes;
    }
  }

  lemma TextIsScanned(item: Item, v: Value, room: int, rest: seq<Byte>)
    requires IsText(item) && TypeFits(item, v) && PrintItem(item, v, room).Some?
    ensures var s := PrintItem(item, v, room).value;
      ScanItem(item, s + rest) == Complete(|s|, [v]) <==> ItemFits(item, v, room)
  {
    var s, whole := PrintItem(item, v, room).value, v.bytes + [0];
    if |s| == |whole| {
      assert s == whole;
      StringIsFound(v.bytes, rest, StringLimit(item));
    } else {
      CutIsNotScanned(item, s, v.bytes, rest);
    }
  }

  // A string that has lost its NUL byte does not end where it was written.
  lemma CutIsNotScanned(item: Item, s: seq<Byte>, bytes: seq<Byte>, rest: seq<Byte>)
    requires IsText(item) && 0 !in bytes && |s| <= |bytes| && s == bytes[..|s|]
    ensures ScanItem(item, s + rest).Complete? ==> ScanItem(item, s + rest).used > |s|
  {
    var r := ScanItem(item, s + rest);
    if r.Complete? {
      StringIsExact(s + rest, StringLimit(item));
      assert (s + rest)[..r.used][r.used - 1] == 0;
      forall i | 0 <= i < |s|
        ensures (s + rest)[i] in bytes
      {
        assert bytes[i] in bytes;
      }
    }
  }

  // ---- Numbers ----

  lemma ByteRoundTrip(v: int)
    ensures v % 0x100 == v <==> 0 <= v < 0x100
  {
  }

  lemma UShortRoundTrip(v: int)
    ensures GetUShort(PutShort(v)) == v <==> 0 <= v < 0x1_0000
  {
  }

  lemma NumberIsScanned(item: Item, v: Value, rest: seq<Byte>)
    requires !IsText(item) && TypeFits(item, v)
    ensures ScanItem(item, Encoded(item, v) + rest) == Complete(|Encoded(item, v)|, [v]) <==> ItemFits(item, v, 0)
  {
    var s := Encoded(item, v);
    assert (s + rest)[..Width(item)] == s;
    match item
    case Char => ByteRoundTrip(v.n);
    case Int => LongRoundTrip(v.n);
    case Short => ShortRoundTrip(v.n);
    case UShort => UShortRoundTrip(v.n);
    case Long => LongRoundTrip(v.n);
  }

  // ---- Whole formats ----

  lemma {:induction false} PrintedIsWithin(fmt: seq<Item>, values: seq<Value>, room: nat)
    requires TypesFit(fmt, values) && Print(fmt, values, room).Some?
    ensures |Print(fmt, values, room).value| <= room
  {
    if fmt != [] {
      PrintedIsWithin(fmt[1..], values[1..], room - |PrintItem(fmt[0], values[0], room).value|);
    }
  }

  // A scan of these bytes and whatever follows them takes just them, and gives the values.
  predicate ReadsBack(fmt: seq<Item>, values: seq<Value>, s: seq<Byte>, rest: seq<Byte>) {
    ScanFormat(fmt, s + rest) == Complete(|s|, values)
  }

  lemma {:induction false} FittingReadsBack(fmt: seq<Item>, values: seq<Value>, room: int, rest: seq<Byte>)
    requires TypesFit(fmt, values) && Print(fmt, values, room).Some? && AllFit(fmt, values, room)
    ensures ReadsBack(fmt, values, Print(fmt, values, room).value, rest)
  {
    if fmt != [] {
      var first := PrintItem(fmt[0], values[0], room).value;
      var more := Print(fmt[1..], values[1..], room - |first|).value;
      ReadsOnStep(fmt, values, room, first, more, rest);
      FittingReadsBack(fmt[1..], values[1..], room - |first|, rest);
    }
  }

  lemma FirstIsScanned(item: Item, v: Value, room: int, rest: seq<Byte>)
    requires TypeFits(item, v) && PrintItem(item, v, room).Some?
    ensures var s := PrintItem(item, v, room).value;
      && (ScanItem(item, s + rest) == Complete(|s|, [v]) <==> ItemFits(item, v, room))
      && (ItemFits(item, v, room) ==> s == Encoded(item, v))
  {
    if IsText(item) {
      TextIsScanned(item, v, room, rest);
    } else {
      NumberIsScanned(item, v, rest);
    }
  }

  // The scan of the rest, with a first value before it.
  function After(used: nat, v: Value, r: Scan): Scan {
    match r
    case Complete(more, others) => Complete(used + more, [v] + others)
    case other => other
  }

  lemma ScannedOn(fmt: seq<Item>, v: Value, first: seq<Byte>, rest: seq<Byte>)
    requires fmt != [] && ScanItem(fmt[0], first + rest) == Complete(|first|, [v])
    ensures ScanFormat(fmt, first + rest) == After(|first|, v, ScanFormat(fmt[1..], rest))
  {
    ScannedFirst(fmt, v, |first|, first + rest);
    assert (first + rest)[|first|..] == rest;
  }

  lemma ScannedFirst(fmt: seq<Item>, v: Value, used: nat, s: seq<Byte>)
    requires fmt != [] && ScanItem(fmt[0], s) == Complete(used, [v])
    ensures used <= |s| && ScanFormat(fmt, s) == After(used, v, ScanFormat(fmt[1..], s[used..]))
  {
  }

  lemma SameRest(values: seq<Value>, r: Scan)
    requires values != []
    ensures r.Complete? ==> ([values[0]] + r.values == values <==> r.values == values[1..])
  {
    assert [values[0]] + values[1..] == values;
    if r.Complete? && [values[0]] + r.values == values {
      assert r.values == ([values[0]] + r.values)[1..];
    }
  }

  lemma Associated(a: seq<Byte>, b: seq<Byte>, c: seq<Byte>)
    ensures a + b + c == a + (b + c)
  {
  }

  lemma TextIsCut(item: Item, v: Value, room: int, rest: seq<Byte>)
    requires IsText(item) && TypeFits(item, v) && PrintItem(item, v, room).Some? && !ItemFits(item, v, room)
    requires ScanItem(item, PrintItem(item, v, room).value + rest).Complete?
    ensures var s := PrintItem(item, v, room).value;
      |s| == room && ScanItem(item, s + rest).used > |s|
  {
    var s := PrintItem(item, v, room).value;
    CutIsNotScanned(item, s, v.bytes, rest);
    StringIsExact(s + rest, StringLimit(item));
  }

  // The values are read all the same, but not to where they end.
  predicate ReadsPast(fmt: seq<Item>, values: seq<Value>, s: seq<Byte>, rest: seq<Byte>) {
    var r := ScanFormat(fmt, s + rest);
    r.Complete? && r.values == values && r.used > |s|
  }

  predicate ReadsValues(fmt: seq<Item>, values: seq<Value>, s: seq<Byte>, rest: seq<Byte>) {
    var r := ScanFormat(fmt, s + rest);
    r.Complete? && r.values == values
  }

  // When something does not fit, but the values are read all the same, then the last string
  // has been cut off at the end of the room and is read on behind it.
  lemma {:induction false} ReadOn(fmt: seq<Item>, values: seq<Value>, room: int, s: seq<Byte>, rest: seq<Byte>)
    requires TypesFit(fmt, values) && Print(fmt, values, room) == Some(s) && !AllFit(fmt, values, room)
    requires ReadsValues(fmt, values, s, rest)
    ensures |s| == room && ReadsPast(fmt, values, s, rest)
  {
    var first := PrintItem(fmt[0], values[0], room).value;
    var more := Print(fmt[1..], values[1..], room - |first|).value;
    assert s == first + more;
    if ItemFits(fmt[0], values[0], room) {
      ReadsOnStep(fmt, values, room, first, more, rest);
      ReadOn(fmt[1..], values[1..], room - |first|, more, rest);
    } else {
      ReadOnHere(fmt, values, room, first, more, rest);
    }
  }

  lemma ReadsOnStep(fmt: seq<Item>, values: seq<Value>, room: int, first: seq<Byte>, more: seq<Byte>, rest: seq<Byte>)
    requires TypesFit(fmt, values) && fmt != [] && PrintItem(fmt[0], values[0], room) == Some(first)
    requires ItemFits(fmt[0], values[0], room)
    ensures AllFit(fmt, values, room) <==> AllFit(fmt[1..], values[1..], room - |first|)
    ensures ReadsValues(fmt, values, first + more, rest) <==> ReadsValues(fmt[1..], values[1..], more, rest)
    ensures ReadsPast(fmt, values, first + more, rest) <==> ReadsPast(fmt[1..], values[1..], more, rest)
    ensures ReadsBack(fmt, values, first + more, rest) <==> ReadsBack(fmt[1..], values[1..], more, rest)
  {
    FirstIsScanned(fmt[0], values[0], room, more + rest);
    ScannedOn(fmt, values[0], first, more + rest);
    SameRest(values, ScanFormat(fmt[1..], more + rest));
    Associated(first, more, rest);
  }

  lemma ReadOnHere(fmt: seq<Item>, values: seq<Value>, room: int, first: seq<Byte>, more: seq<Byte>, rest: seq<Byte>)
    requires TypesFit(fmt, values) && fmt != [] && PrintItem(fmt[0], values[0], room) == Some(first)
    requires Print(fmt[1..], values[1..], room - |first|) == Some(more) && !ItemFits(fmt[0], values[0], room)
    requires ReadsValues(fmt, values, first + more, rest)
    ensures |first + more| == room && ReadsPast(fmt, values, first + more, rest)
  {
    Associated(first, more, rest);
    FirstIsRead(fmt, values, first + (more + rest));
    NumberIsFit(fmt[0], values[0], room, more + rest);
    TextIsCut(fmt[0], values[0], room, more + rest);
    PrintedIsWithin(fmt[1..], values[1..], 0);
  }

  lemma FirstIsRead(fmt: seq<Item>, values: seq<Value>, s: seq<Byte>)
    requires fmt != [] && ScanFormat(fmt, s).Complete? && ScanFormat(fmt, s).values == values
    ensures ScanItem(fmt[0], s).Complete? && ScanItem(fmt[0], s).values == [values[0]]
    ensures ScanItem(fmt[0], s).used <= ScanFormat(fmt, s).used
  {
  }

  // A number that is read back with its value has fitted.
  lemma NumberIsFit(item: Item, v: Value, room: int, rest: seq<Byte>)
    requires TypeFits(item, v) && PrintItem(item, v, room).Some? && !ItemFits(item, v, room)
    requires var r := ScanItem(item, PrintItem(item, v, room).value + rest); r.Complete? && r.values == [v]
    ensures IsText(item)
  {
    if !IsText(item) {
      NumberIsScanned(item, v, rest);
    }
  }

  // What is written is read back, item by item and to its end, exactly when everything
  // fits.
  lemma PrintedIsScanned(fmt: seq<Item>, values: seq<Value>, room: int, rest: seq<Byte>)
    requires TypesFit(fmt, values) && Print(fmt, values, room).Some?
    ensures ReadsBack(fmt, values, Print(fmt, values, room).value, rest) <==> AllFit(fmt, values, room)
  {
    if AllFit(fmt, values, room) {
      FittingReadsBack(fmt, values, room, rest);
    } else if ReadsValues(fmt, values, Print(fmt, values, room).value, rest) {
      ReadOn(fmt, values, room, Print(fmt, values, room).value, rest);
    }
  }

  // What fits is written whole.
  lemma {:induction false} PrintedIsEncoded(fmt: seq<Item>, values: seq<Value>, room: int)
    requires TypesFit(fmt, values) && Print(fmt, values, room).Some? && AllFit(fmt, values, room)
    ensures Print(fmt, values, room).value == EncodedAll(fmt, values)
  {
    if fmt != [] {
      FirstIsScanned(fmt[0], values[0], room, []);
      PrintedIsEncoded(fmt[1..], values[1..], room - |Encoded(fmt[0], values[0])|);
    }
  }

  // ---- A type and two numbers ----

  lemma CharTwoLongs(fmt: seq<Item>, values: seq<Value>, kind: Byte, a: int, b: int, room: int)
    requires |fmt| == 3 && fmt[0] == Char && fmt[1..] == [Long, Long]
    requires |values| == 3 && values[0] == Number(kind) && values[1..] == [Number(a), Number(b)]
    ensures TypesFit(fmt, values)
    ensures Print(fmt, values, room) == if room <= 9 then None else Some([kind] + (PutLong(a) + PutLong(b)))
    ensures AllFit(fmt, values, room) <==> -0x8000_0000 <= a < 0x8000_0000 && -0x8000_0000 <= b < 0x8000_0000
  {
    assert fmt[1] == fmt[1..][0] && fmt[2] == fmt[1..][1] && values[1] == values[1..][0] && values[2] == values[1..][1];
    TwoLongs(fmt[1..], values[1..], a, b, room - 1);
    assert PrintItem(fmt[0], values[0], room) == if room <= 1 then None else Some([kind]);
  }

  lemma TwoLongs(fmt: seq<Item>, values: seq<Value>, a: int, b: int, room: int)
    requires fmt == [Long, Long] && values == [Number(a), Number(b)]
    ensures TypesFit(fmt, values)
    ensures Print(fmt, values, room) == if room <= 8 then None else Some(PutLong(a) + PutLong(b))
    ensures AllFit(fmt, values, room) <==> -0x8000_0000 <= a < 0x8000_0000 && -0x8000_0000 <= b < 0x8000_0000
  {
    OneLong(fmt[1..], values[1..], b, room - 4);
  }

  lemma OneLong(fmt: seq<Item>, values: seq<Value>, a: int, room: int)
    requires fmt == [Long] && values == [Number(a)]
    ensures TypesFit(fmt, values)
    ensures Print(fmt, values, room) == if room <= 4 then None else Some(PutLong(a))
    ensures AllFit(fmt, values, room) <==> -0x8000_0000 <= a < 0x8000_0000
  {
    assert fmt[1..] == [] && PutLong(a) + [] == PutLong(a);
  }
}

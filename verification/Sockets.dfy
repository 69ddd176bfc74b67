/** Socket buffers and the scanning of packets, after net.c. */
module Sockets {
  import opened Bytes

  const MAX_CHARS := 80
  const MSG_LEN := 256
  const SOCKBUF_WRITE_SPARE := 8

  // data holds buf[0..len] and ptr is an index into it.
  datatype Sockbuf = Sockbuf(data: seq<Byte>, ptr: int, size: int) {

    predicate Valid() { 0 <= ptr <= |data| <= size }

    function Unread(): seq<Byte>
      requires Valid()
    {
      data[ptr..]
    }

    function Clear(): Sockbuf { Sockbuf([], 0, size) }

    // Drop the first n bytes.
    function Advance(n: int): (r: Sockbuf)
      requires Valid()
      ensures r.Valid() && r.size == size
    {
      if n <= 0 then this
      else if n >= |data| then Clear()
      else Sockbuf(data[n..], if ptr <= n then 0 else ptr - n, size)
    }

    // Append bytes to a locked or datagram buffer; no room means no change.
    function Write(bytes: seq<Byte>): Sockbuf {
      if size - |data| < |bytes| then this else this.(data := data + bytes)
    }
  }

  // One conversion of a packet format.
  datatype Item = Char | Int | Short | UShort | Long | SmallString | BigString

  datatype Value = Number(n: int) | Text(bytes: seq<Byte>)

  // A scan reads all its items, finds the data incomplete, or fails.
  datatype Scan = Complete(used: nat, values: seq<Value>) | Incomplete | Failed

  function Width(item: Item): int
    requires !item.SmallString? && !item.BigString?
  {
    match item
    case Char => 1
    case Int => 4
    case Short => 2
    case UShort => 2
    case Long => 4
  }

  function ReadNumber(item: Item, s: seq<Byte>): int
    requires !item.SmallString? && !item.BigString? && |s| == Width(item)
  {
    match item
    case Char => s[0]
    case Int => GetLong(s)
    case Short => GetShort(s)
    case UShort => GetUShort(s)
    case Long => GetLong(s)
  }

  function StringLimit(item: Item): int { if item.BigString? then MSG_LEN else MAX_CHARS }

  // A string ends at its NUL byte; one that is still without it after the limit
  // makes the scan of a locked buffer fail.
  function ScanString(s: seq<Byte>, limit: nat): (r: Scan)
    ensures r.Complete? ==> 0 < r.used <= |s| && |r.values| == 1 && r.values[0].Text?
  {
    if s == [] then Incomplete
    else if s[0] == 0 then Complete(1, [Text([])])
    else if limit <= 1 then Failed
    else
      match ScanString(s[1..], limit - 1)
      case Complete(used, values) => Complete(used + 1, [Text([s[0]] + values[0].bytes)])
      case other => other
  }

  function ScanItem(item: Item, s: seq<Byte>): (r: Scan)
    ensures r.Complete? ==> 0 < r.used <= |s| && |r.values| == 1
  {
    if item.SmallString? || item.BigString? then ScanString(s, StringLimit(item))
    else if |s| < Width(item) then Incomplete
    else Complete(Width(item), [Number(ReadNumber(item, s[..Width(item)]))])
  }

  // Scan the items of a format one after the other.
  function ScanFormat(fmt: seq<Item>, s: seq<Byte>): (r: Scan)
    ensures r.Complete? ==> |fmt| <= r.used <= |s| && |r.values| == |fmt|
  {
    if fmt == [] then Complete(0, [])
    else
      match ScanItem(fmt[0], s)
      case Complete(used, values) =>
        (match ScanFormat(fmt[1..], s[used..])
         case Complete(more, rest) => Complete(used + more, values + rest)
         case other => other)
      case other => other
  }

  predicate Fixed(fmt: seq<Item>) {
    forall i :: 0 <= i < |fmt| ==> !fmt[i].SmallString? && !fmt[i].BigString?
  }

  function TotalWidth(fmt: seq<Item>): nat
    requires Fixed(fmt)
  {
    if fmt == [] then 0 else Width(fmt[0]) + TotalWidth(fmt[1..])
  }

  // A format without strings is complete once all its bytes are there.
  lemma {:induction false} FixedScan(fmt: seq<Item>, s: seq<Byte>)
    requires Fixed(fmt)
    ensures if |s| < TotalWidth(fmt) then ScanFormat(fmt, s).Incomplete?
            else ScanFormat(fmt, s).Complete? && ScanFormat(fmt, s).used == TotalWidth(fmt)
  {
    if fmt != [] && |s| >= Width(fmt[0]) {
      FixedScan(fmt[1..], s[Width(fmt[0])..]);
    }
  }

  // More data do not change a scan that did not run out of data.

  lemma {:induction false} StringIsStable(s: seq<Byte>, t: seq<Byte>, limit: nat)
    requires !ScanString(s, limit).Incomplete?
    ensures ScanString(s + t, limit) == ScanString(s, limit)
  {
    if s[0] != 0 && limit > 1 {
      StringIsStable(s[1..], t, limit - 1);
      assert (s + t)[1..] == s[1..] + t;
    }
  }

  lemma ItemIsStable(item: Item, s: seq<Byte>, t: seq<Byte>)
    requires !ScanItem(item, s).Incomplete?
    ensures ScanItem(item, s + t) == ScanItem(item, s)
  {
    if item.SmallString? || item.BigString? {
      StringIsStable(s, t, StringLimit(item));
    } else {
      assert (s + t)[..Width(item)] == s[..Width(item)];
    }
  }

  lemma {:induction false} ScanIsStable(fmt: seq<Item>, s: seq<Byte>, t: seq<Byte>)
    requires !ScanFormat(fmt, s).Incomplete?
    ensures ScanFormat(fmt, s + t) == ScanFormat(fmt, s)
  {
    if fmt != [] {
      ItemIsStable(fmt[0], s, t);
      var first := ScanItem(fmt[0], s);
      if first.Complete? {
        ScanIsStable(fmt[1..], s[first.used..], t);
        assert (s + t)[first.used..] == s[first.used..] + t;
      }
    }
  }
}

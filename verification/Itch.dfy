/** ITCH messages: the length table, the cut of a byte block into messages, and the
    decoders of the three supported message types (sections 1.3.1, 1.4.1 and 1.4.3 of
    NASDAQ TotalView-ITCH 5.0).
 */
module Itch {
  import opened Bits
  import opened Bytes
  import opened Collections
  import opened Orders

  const TYPE_ADD: byte := 0x41     // 'A'
  const TYPE_EXECUTE: byte := 0x45 // 'E'
  const TYPE_CANCEL: byte := 0x58  // 'X'
  const TYPE_OTHER: byte := 0x2D   // '-'

  /** `message_length_table`, without its zero entries. */
  const LENGTHS: map<byte, nat> := map[
    0x41 := 36, 0x42 := 19, 0x43 := 36, 0x44 := 19, 0x45 := 31, 0x46 := 40, 0x48 := 25, 0x49 := 50,
    0x4A := 35, 0x4B := 28, 0x4C := 26, 0x4E := 20, 0x4F := 48, 0x50 := 44, 0x51 := 40, 0x52 := 39,
    0x53 := 12, 0x55 := 35, 0x56 := 35, 0x57 := 12, 0x58 := 23, 0x59 := 20, 0x68 := 21]

  function MessageLength(t: byte): (n: nat)
    ensures n <= 50
  {
    if t in LENGTHS then LENGTHS[t] else 0
  }

  /** Type, two 2-byte numbers and a 6-byte timestamp begin every message. */
  const COMMON: nat := 1 + 2 + 2 + 6

  /** The widths of the fields of each message type, in order, as section 1 of ITCH 5.0 lists
      them; 0 for the bytes that are no message type. */
  function FieldWidths(t: byte): nat {
    if t == 0x53 then COMMON + 1                                               // 'S' system event
    else if t == 0x52 then COMMON + 8 + 1 + 1 + 4 + 1 + 1 + 2 + 1 + 1 + 1 + 1 + 1 + 4 + 1 // 'R' stock directory
    else if t == 0x48 then COMMON + 8 + 1 + 1 + 4                              // 'H' trading action
    else if t == 0x59 then COMMON + 8 + 1                                      // 'Y' short sale restriction
    else if t == 0x4C then COMMON + 4 + 8 + 1 + 1 + 1                          // 'L' market participant position
    else if t == 0x56 then COMMON + 8 + 8 + 8                                  // 'V' circuit breaker decline levels
    else if t == 0x57 then COMMON + 1                                          // 'W' circuit breaker status
    else if t == 0x4B then COMMON + 8 + 4 + 1 + 4                              // 'K' quoting period update
    else if t == 0x4A then COMMON + 8 + 4 + 4 + 4 + 4                          // 'J' auction collar
    else if t == 0x68 then COMMON + 8 + 1 + 1                                  // 'h' operational halt
    else if t == 0x41 then COMMON + 8 + 1 + 4 + 8 + 4                          // 'A' add
    else if t == 0x46 then COMMON + 8 + 1 + 4 + 8 + 4 + 4                      // 'F' add with attribution
    else if t == 0x45 then COMMON + 8 + 4 + 8                                  // 'E' execution
    else if t == 0x43 then COMMON + 8 + 4 + 8 + 1 + 4                          // 'C' execution with price
    else if t == 0x58 then COMMON + 8 + 4                                      // 'X' cancel
    else if t == 0x44 then COMMON + 8                                          // 'D' delete
    else if t == 0x55 then COMMON + 8 + 8 + 4 + 4                              // 'U' replace
    else if t == 0x50 then COMMON + 8 + 1 + 4 + 8 + 4 + 8                      // 'P' trade
    else if t == 0x51 then COMMON + 8 + 8 + 4 + 8 + 1                          // 'Q' cross trade
    else if t == 0x42 then COMMON + 8                                          // 'B' broken trade
    else if t == 0x49 then COMMON + 8 + 8 + 1 + 8 + 4 + 4 + 4 + 1 + 1          // 'I' order imbalance
    else if t == 0x4E then COMMON + 8 + 1                                      // 'N' retail interest
    else if t == 0x4F then COMMON + 8 + 1 + 4 + 4 + 4 + 8 + 4 + 4              // 'O' direct listing price discovery
    else 0
  }

  /** The length table is the sum of the field widths, for every byte. */
  lemma TableIsFieldWidths(t: byte)
    ensures MessageLength(t) == FieldWidths(t)
  {
  }

  predicate Supported(t: byte) {
    t == TYPE_ADD || t == TYPE_EXECUTE || t == TYPE_CANCEL
  }

  lemma SupportedLengths()
    ensures MessageLength(TYPE_ADD) == 36 && MessageLength(TYPE_EXECUTE) == 31 && MessageLength(TYPE_CANCEL) == 23
  {
  }

  // ----- decoding

  datatype Header = Header(timestamp: u64, id: u64, stockLocate: u16, trackingNumber: u16)

  /** Six timestamp bytes in a zeroed word, byte-swapped and shifted right by 16. */
  function ExtractTimestamp(raw: seq<byte>): u64
    requires |raw| >= 11
  {
    var word := raw[5..11] + [0, 0];
    Bswap64(LoadU64(word, 0)) / 0x1_0000
  }

  function ExtractHeader(raw: seq<byte>): Header
    requires |raw| >= 19
  {
    Header(ExtractTimestamp(raw), Bswap64(LoadU64(raw, 11)), Bswap16(LoadU16(raw, 1)), Bswap16(LoadU16(raw, 3)))
  }

  function ParseAddOrder(raw: seq<byte>, header: Header): Order
    requires |raw| >= 36
  {
    Add(header.timestamp, header.id, Bswap32(LoadU32(raw, 20)), Bswap32(LoadU32(raw, 32)), 0, 0, raw[24..32], raw[19])
  }

  function ParseExecutedOrder(raw: seq<byte>, header: Header): Order
    requires |raw| >= 31
  {
    Execute(header.timestamp, header.id, Bswap64(LoadU64(raw, 23)), Bswap32(LoadU32(raw, 19)),
            header.stockLocate, header.trackingNumber)
  }

  function ParseCancelOrder(raw: seq<byte>, header: Header): Order
    requires |raw| >= 23
  {
    Cancel(header.timestamp, header.id, Bswap32(LoadU32(raw, 19)), header.stockLocate, header.trackingNumber)
  }

  /** The order a message of type `t` stands for; none for unsupported types. */
  function Decode(t: byte, raw: seq<byte>): seq<Order>
    requires Supported(t) ==> |raw| >= MessageLength(t)
  {
    if t == TYPE_ADD then [ParseAddOrder(raw, ExtractHeader(raw))]
    else if t == TYPE_EXECUTE then [ParseExecutedOrder(raw, ExtractHeader(raw))]
    else if t == TYPE_CANCEL then [ParseCancelOrder(raw, ExtractHeader(raw))]
    else []
  }

  // ----- encoding, as the specification lays the fields out

  function EncodeHeader(t: byte, locate: u16, tracking: u16, timestamp: nat, id: u64): (s: seq<byte>)
    ensures |s| == 19
  {
    [t] + ToBE(2, locate) + ToBE(2, tracking) + ToBE(6, timestamp) + ToBE(8, id)
  }

  /** The packed wire form of an order; `locate` and `tracking` are the wire values. */
  function Encode(order: Order, locate: u16, tracking: u16): (s: seq<byte>)
    requires order.Add? ==> |order.stock| == 8
    ensures |s| == if order.Add? then 36 else if order.Execute? then 31 else 23
  {
    match order
    case Add(timestamp, id, shares, price, _, _, stock, indicator) =>
      EncodeHeader(TYPE_ADD, locate, tracking, timestamp, id) + [indicator] + ToBE(4, shares) + stock + ToBE(4, price)
    case Execute(timestamp, id, matchNumber, shares, _, _) =>
      EncodeHeader(TYPE_EXECUTE, locate, tracking, timestamp, id) + ToBE(4, shares) + ToBE(8, matchNumber)
    case Cancel(timestamp, id, shares, _, _) =>
      EncodeHeader(TYPE_CANCEL, locate, tracking, timestamp, id) + ToBE(4, shares)
  }

  function TypeOf(order: Order): byte {
    if order.Add? then TYPE_ADD else if order.Execute? then TYPE_EXECUTE else TYPE_CANCEL
  }

  // ----- the fields on the wire

  lemma TimestampOnWire(raw: seq<byte>)
    requires |raw| >= 11
    ensures ExtractTimestamp(raw) == FromBE(raw[5..11])
  {
    var word := raw[5..11] + [0, 0];
    assert word[0..8] == word;
    SwapOfShortLoad(raw[5..11]);
  }

  lemma HeaderOnWire(raw: seq<byte>)
    requires |raw| >= 19
    ensures var h := ExtractHeader(raw);
            && h.stockLocate == FromBE(raw[1..3]) && h.trackingNumber == FromBE(raw[3..5])
            && h.timestamp == FromBE(raw[5..11]) && h.id == FromBE(raw[11..19])
  {
    hide ExtractTimestamp, Bswap16, Bswap64, LoadU16, LoadU64, FromBE;
    Wire16(raw, 1);
    Wire16(raw, 3);
    TimestampOnWire(raw);
    Wire64(raw, 11);
  }

  /** Section 1.3.1 of ITCH 5.0: an add without attribution. */
  lemma AddOnWire(raw: seq<byte>)
    requires |raw| >= 36
    ensures var orders := Decode(0x41, raw);
            && |orders| == 1 && var o := orders[0];
            && o.Add? && o.timestamp == FromBE(raw[5..11]) && o.id == FromBE(raw[11..19])
            && o.indicator == raw[19] && o.shares == FromBE(raw[20..24])
            && o.stock == raw[24..32] && o.price == FromBE(raw[32..36])
  {
    hide ExtractHeader, Bswap32, LoadU32, FromBE;
    HeaderOnWire(raw);
    Wire32(raw, 20);
    Wire32(raw, 32);
  }

  /** Section 1.4.1: an execution at the order's price. */
  lemma ExecuteOnWire(raw: seq<byte>)
    requires |raw| >= 31
    ensures var orders := Decode(0x45, raw);
            && |orders| == 1 && var o := orders[0];
            && o.Execute? && o.stockLocate == FromBE(raw[1..3]) && o.trackingNumber == FromBE(raw[3..5])
            && o.timestamp == FromBE(raw[5..11]) && o.id == FromBE(raw[11..19])
            && o.shares == FromBE(raw[19..23]) && o.matchNumber == FromBE(raw[23..31])
  {
    hide ExtractHeader, Bswap32, Bswap64, LoadU32, LoadU64, FromBE;
    HeaderOnWire(raw);
    Wire32(raw, 19);
    Wire64(raw, 23);
  }

  /** Section 1.4.3: a cancel. */
  lemma CancelOnWire(raw: seq<byte>)
    requires |raw| >= 23
    ensures var orders := Decode(0x58, raw);
            && |orders| == 1 && var o := orders[0];
            && o.Cancel? && o.stockLocate == FromBE(raw[1..3]) && o.trackingNumber == FromBE(raw[3..5])
            && o.timestamp == FromBE(raw[5..11]) && o.id == FromBE(raw[11..19])
            && o.shares == FromBE(raw[19..23])
  {
    hide ExtractHeader, Bswap32, LoadU32, FromBE;
    HeaderOnWire(raw);
    Wire32(raw, 19);
  }

  /** Exactly the types 'A', 'E' and 'X' stand for an order, each for its own kind. */
  lemma DecodesByType(t: byte, raw: seq<byte>)
    requires Supported(t) ==> |raw| >= MessageLength(t)
    ensures var orders := Decode(t, raw);
            && (t == 0x41 ==> |orders| == 1 && orders[0].Add?)
            && (t == 0x45 ==> |orders| == 1 && orders[0].Execute?)
            && (t == 0x58 ==> |orders| == 1 && orders[0].Cancel?)
            && (t != 0x41 && t != 0x45 && t != 0x58 ==> orders == [])
  {
    hide ExtractHeader, Bswap32, Bswap64, LoadU32, LoadU64;
  }

  // ----- decoding inverts encoding

  lemma FieldTimestamp(raw: seq<byte>, x: nat)
    requires 11 <= |raw| && raw[5..11] == ToBE(6, x) && x < 0x1_0000_0000_0000
    ensures ExtractTimestamp(raw) == x
  {
    Pow256Literals();
    TimestampOnWire(raw);
    FromBEToBE(6, x);
  }

  lemma HeaderFields(t: byte, locate: u16, tracking: u16, timestamp: nat, id: u64, rest: seq<byte>)
    requires timestamp < 0x1_0000_0000_0000
    ensures ExtractHeader(EncodeHeader(t, locate, tracking, timestamp, id) + rest)
            == Header(timestamp, id, locate, tracking)
  {
    var l, k, m, i := ToBE(2, locate), ToBE(2, tracking), ToBE(6, timestamp), ToBE(8, id);
    var raw := EncodeHeader(t, locate, tracking, timestamp, id) + rest;
    hide *;
    assert raw[1..3] == l by { Seams([t], l, k + m + i + rest); assert raw == [t] + l + (k + m + i + rest); }
    assert raw[3..5] == k by { Seams([t] + l, k, m + i + rest); assert raw == [t] + l + k + (m + i + rest); }
    assert raw[5..11] == m by { Seams([t] + l + k, m, i + rest); assert raw == [t] + l + k + m + (i + rest); }
    assert raw[11..19] == i by { Seams([t] + l + k + m, i, rest); }
    Field16(raw, 1, locate);
    Field16(raw, 3, tracking);
    FieldTimestamp(raw, timestamp);
    Field64(raw, 11, id);
  }

  /** What of an order survives decoding: an add drops its locate and tracking numbers. */
  function Carried(order: Order, locate: u16, tracking: u16): Order {
    match order
    case Add(timestamp, id, shares, price, _, _, stock, indicator) =>
      Add(timestamp, id, shares, price, 0, 0, stock, indicator)
    case Execute(timestamp, id, matchNumber, shares, _, _) =>
      Execute(timestamp, id, matchNumber, shares, locate, tracking)
    case Cancel(timestamp, id, shares, _, _) => Cancel(timestamp, id, shares, locate, tracking)
  }

  lemma AddSlices(h: seq<byte>, i: byte, n: seq<byte>, s: seq<byte>, p: seq<byte>, rest: seq<byte>)
    requires |h| == 19 && |n| == 4 && |s| == 8 && |p| == 4
    ensures var raw := h + [i] + n + s + p + rest;
            && raw == h + ([i] + n + s + p + rest)
            && raw[19] == i && raw[20..24] == n && raw[24..32] == s && raw[32..36] == p
  {
    Seams(h + [i], n, s + p + rest);
    Seams(h + [i] + n, s, p + rest);
    Seams(h + [i] + n + s, p, rest);
  }

  lemma DecodeAdd(order: Order, locate: u16, tracking: u16, rest: seq<byte>)
    requires order.Add? && |order.stock| == 8 && order.timestamp < 0x1_0000_0000_0000
    ensures var raw := Encode(order, locate, tracking) + rest;
            ParseAddOrder(raw, ExtractHeader(raw)) == Carried(order, locate, tracking)
  {
    var h := EncodeHeader(TYPE_ADD, locate, tracking, order.timestamp, order.id);
    var n, p := ToBE(4, order.shares), ToBE(4, order.price);
    var raw := h + [order.indicator] + n + order.stock + p + rest;
    hide EncodeHeader, ToBE, ExtractHeader, Bswap32, LoadU32;
    assert raw == Encode(order, locate, tracking) + rest;
    HeaderFields(TYPE_ADD, locate, tracking, order.timestamp, order.id, [order.indicator] + n + order.stock + p + rest);
    AddSlices(h, order.indicator, n, order.stock, p, rest);
    Field32(raw, 20, order.shares);
    Field32(raw, 32, order.price);
  }

  lemma ExecuteSlices(h: seq<byte>, n: seq<byte>, m: seq<byte>, rest: seq<byte>)
    requires |h| == 19 && |n| == 4 && |m| == 8
    ensures var raw := h + n + m + rest;
            raw == h + (n + m + rest) && raw[19..23] == n && raw[23..31] == m
  {
    Seams(h, n, m + rest);
    Seams(h + n, m, rest);
  }

  lemma DecodeExecute(order: Order, locate: u16, tracking: u16, rest: seq<byte>)
    requires order.Execute? && order.timestamp < 0x1_0000_0000_0000
    ensures var raw := Encode(order, locate, tracking) + rest;
            ParseExecutedOrder(raw, ExtractHeader(raw)) == Carried(order, locate, tracking)
  {
    var h := EncodeHeader(TYPE_EXECUTE, locate, tracking, order.timestamp, order.id);
    var n, m := ToBE(4, order.shares), ToBE(8, order.matchNumber);
    var raw := h + n + m + rest;
    hide EncodeHeader, ToBE, ExtractHeader, Bswap32, LoadU32, Bswap64, LoadU64;
    assert raw == Encode(order, locate, tracking) + rest;
    HeaderFields(TYPE_EXECUTE, locate, tracking, order.timestamp, order.id, n + m + rest);
    ExecuteSlices(h, n, m, rest);
    Field32(raw, 19, order.shares);
    Field64(raw, 23, order.matchNumber);
  }

  lemma DecodeCancel(order: Order, locate: u16, tracking: u16, rest: seq<byte>)
    requires order.Cancel? && order.timestamp < 0x1_0000_0000_0000
    ensures var raw := Encode(order, locate, tracking) + rest;
            ParseCancelOrder(raw, ExtractHeader(raw)) == Carried(order, locate, tracking)
  {
    hide EncodeHeader, ToBE, ExtractHeader, Bswap32, LoadU32;
    var h := EncodeHeader(TYPE_CANCEL, locate, tracking, order.timestamp, order.id);
    var n := ToBE(4, order.shares);
    var raw := h + n + rest;
    assert raw == Encode(order, locate, tracking) + rest;
    HeaderFields(TYPE_CANCEL, locate, tracking, order.timestamp, order.id, n + rest);
    Seams(h, n, rest);
    assert raw == h + (n + rest);
    Field32(raw, 19, order.shares);
  }

  /** For every order whose timestamp fits 48 bits, decoding its wire form, whatever bytes
      follow, gives back every field the book's messages carry. */
  lemma DecodeInvertsEncode(order: Order, locate: u16, tracking: u16, rest: seq<byte>)
    requires order.Add? ==> |order.stock| == 8
    requires order.timestamp < 0x1_0000_0000_0000
    ensures Decode(TypeOf(order), Encode(order, locate, tracking) + rest) == [Carried(order, locate, tracking)]
  {
    match order
    case Add(_, _, _, _, _, _, _, _) => DecodeAdd(order, locate, tracking, rest);
    case Execute(_, _, _, _, _, _) => DecodeExecute(order, locate, tracking, rest);
    case Cancel(_, _, _, _, _) => DecodeCancel(order, locate, tracking, rest);
  }

  lemma DecodeOfPrefix(t: byte, raw: seq<byte>, n: nat)
    requires Supported(t) && MessageLength(t) <= n <= |raw|
    ensures Decode(t, raw) == Decode(t, raw[..n])
  {
    var p := raw[..n];
    hide FromLE, Bswap16, Bswap32, Bswap64;
    assert p[1..3] == raw[1..3] && p[3..5] == raw[3..5] && p[5..11] == raw[5..11] && p[11..19] == raw[11..19];
    assert p[19..23] == raw[19..23];
    if t == TYPE_ADD {
      assert p[20..24] == raw[20..24] && p[24..32] == raw[24..32] && p[32..36] == raw[32..36];
    } else if t == TYPE_EXECUTE {
      assert p[23..31] == raw[23..31];
    }
  }

  /** Decoding looks at no byte past the message: any two buffers that start with the same
      message decode alike, the caller's block and a zero-padded log slot for instance. */
  lemma DecodeDependsOnMessage(t: byte, raw: seq<byte>, raw': seq<byte>)
    requires Supported(t) ==> |raw| >= MessageLength(t) && |raw'| >= MessageLength(t)
    requires Supported(t) ==> raw[..MessageLength(t)] == raw'[..MessageLength(t)]
    ensures Decode(t, raw) == Decode(t, raw')
  {
    if Supported(t) {
      DecodeOfPrefix(t, raw, MessageLength(t));
      DecodeOfPrefix(t, raw', MessageLength(t));
    }
  }

  // ----- cutting a block into messages

  /** The longest whole-message prefix of a block, message by message. */
  function Cut(b: seq<byte>): seq<Message>
    decreases |b|
  {
    if b == [] then []
    else
      var n := MessageLength(b[0]);
      if n == 0 || |b| < n then [] else [Message(b[..n])] + Cut(b[n..])
  }

  /** Every message boundary that the cut reaches carries a known type. */
  predicate Cuttable(b: seq<byte>)
    decreases |b|
  {
    b == [] ||
    var n := MessageLength(b[0]);
    n > 0 && (|b| < n || Cuttable(b[n..]))
  }

  /** One turn of the parse loop: the bytes still to parse, or nothing when it returns. A
      byte with table length 0 moves the loop nowhere. */
  function Turn(b: seq<byte>): Option<seq<byte>> {
    if b == [] || |b| < MessageLength(b[0]) then None else Some(b[MessageLength(b[0])..])
  }

  function Turns(b: seq<byte>, k: nat): Option<seq<byte>> {
    if k == 0 then Some(b) else if Turn(b).None? then None else Turns(Turn(b).value, k - 1)
  }

  lemma {:induction false} EndsWhenKnown(b: seq<byte>) returns (k: nat)
    requires Cuttable(b)
    ensures Turns(b, k).None?
    decreases |b|
  {
    if Turn(b).None? {
      k := 1;
    } else {
      k := EndsWhenKnown(Turn(b).value);
      k := k + 1;
    }
  }

  lemma {:induction false} KnownWhenEnds(b: seq<byte>, k: nat)
    requires Turns(b, k).None?
    ensures Cuttable(b)
    decreases k
  {
    if Turn(b).Some? {
      KnownWhenEnds(Turn(b).value, k - 1);
      assert b[0..] == b;
    }
  }

  /** The parse loop ends exactly on the blocks whose boundaries carry known types. */
  lemma ParseEndsIffKnown(b: seq<byte>)
    ensures (exists k :: Turns(b, k).None?) <==> Cuttable(b)
  {
    if Cuttable(b) {
      var k := EndsWhenKnown(b);
    }
    if k :| Turns(b, k).None? {
      KnownWhenEnds(b, k);
    }
  }

  /** A single zero byte, for one, is parsed for ever. */
  lemma UnknownTypeLoops(k: nat)
    ensures Turns([0], k) == Some([0])
  {
    var b: seq<byte> := [0];
    if k > 0 {
      assert b[0..] == b;
      UnknownTypeLoops(k - 1);
    }
  }

  predicate WholeMessage(m: Message) {
    m.bytes != [] && MessageLength(m.bytes[0]) == |m.bytes|
  }

  predicate AllWhole(ms: seq<Message>) {
    forall i :: 0 <= i < |ms| ==> WholeMessage(ms[i])
  }

  function Join(ms: seq<Message>): seq<byte> {
    if ms == [] then [] else ms[0].bytes + Join(ms[1..])
  }

  /** A rest that holds no whole message. */
  predicate Incomplete(b: seq<byte>) {
    b == [] || |b| < MessageLength(b[0])
  }

  /** The cut consists of whole messages, and what it leaves over is less than one. */
  lemma {:induction false} CutIsLongestPrefix(b: seq<byte>)
    requires Cuttable(b)
    ensures AllWhole(Cut(b))
    ensures Join(Cut(b)) <= b && Incomplete(b[|Join(Cut(b))|..])
    decreases |b|
  {
    if b != [] {
      var n := MessageLength(b[0]);
      if |b| >= n {
        CutIsLongestPrefix(b[n..]);
        var j := Join(Cut(b[n..]));
        assert Cut(b)[0] == Message(b[..n]) && Cut(b)[1..] == Cut(b[n..]);
        assert b == b[..n] + b[n..];
        assert b[|Join(Cut(b))|..] == b[n..][|j|..];
      }
    }
  }

  lemma CutOne(m: Message, tail: seq<byte>)
    requires WholeMessage(m)
    ensures Cut(m.bytes + tail) == [m] + Cut(tail)
    ensures Cuttable(m.bytes + tail) <==> Cuttable(tail)
  {
    hide MessageLength;
    var b := m.bytes + tail;
    assert b[..|m.bytes|] == m.bytes && b[|m.bytes|..] == tail;
  }

  lemma CutOfIncomplete(b: seq<byte>)
    requires Incomplete(b)
    ensures Cuttable(b) && Cut(b) == []
  {
  }

  /** Whole messages followed by less than a message are cut back into those messages. */
  lemma {:induction false} CutInvertsJoin(ms: seq<Message>, rest: seq<byte>)
    requires AllWhole(ms)
    requires Incomplete(rest)
    ensures Cuttable(Join(ms) + rest) && Cut(Join(ms) + rest) == ms
  {
    hide MessageLength, WholeMessage, Incomplete, Cut, Cuttable;
    if ms == [] {
      assert Join(ms) + rest == rest;
      CutOfIncomplete(rest);
    } else {
      CutInvertsJoin(ms[1..], rest);
      var m := ms[0].bytes;
      assert Join(ms) + rest == m + (Join(ms[1..]) + rest);
      CutOne(ms[0], Join(ms[1..]) + rest);
    }
  }

  function DecodeMessage(m: Message): seq<Order>
    requires WholeMessage(m)
  {
    Decode(m.bytes[0], m.bytes)
  }

  /** What the parser offers to the queue for a list of messages. */
  function DecodeAll(ms: seq<Message>): seq<Order>
    requires AllWhole(ms)
  {
    if ms == [] then [] else DecodeAll(ms[..|ms| - 1]) + DecodeMessage(ms[|ms| - 1])
  }
}

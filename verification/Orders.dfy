/** The decoded market messages that the parser hands to the order book. */
module Orders {
  import opened Bits

  datatype Side = Buy | Sell

  /** `NormalizedOrder`: a type tag with one of three payloads, in host byte order. */
  datatype Order =
    | Add(timestamp: u64, id: u64, shares: u32, price: u32,
          stockLocate: u16, trackingNumber: u16, stock: seq<byte>, indicator: byte)
    | Execute(timestamp: u64, id: u64, matchNumber: u64, shares: u32,
              stockLocate: u16, trackingNumber: u16)
    | Cancel(timestamp: u64, id: u64, shares: u32, stockLocate: u16, trackingNumber: u16)

  /** Indicator 'B' is a buy; anything else is taken as a sell. */
  function SideOf(indicator: byte): Side {
    if indicator == 0x42 then Buy else Sell
  }
}

/** Data types of the sealed-bid second-price auction (auction-types.go). */
module AuctionTypes {

  /** Go's fixed-width unsigned integers. */
  newtype uint8 = x: int | 0 <= x < 0x100
  newtype uint64 = x: int | 0 <= x < 0x1_0000_0000_0000_0000

  /** Raw bytes: certificates in DER form, commitments, salts. */
  type Bytes = seq<uint8>

  datatype Option<+T> = None | Some(value: T)

  datatype Result<+T, +E> = Ok(value: T) | Err(error: E)

  /** The auction lifecycle; the constructors appear in the order of Go's `iota`. */
  datatype AuctionStatus = Open | Closed | Ended
  {
    /** The integer value Go stores for the status. */
    function Ord(): (n: nat)
      ensures n < 3
      ensures n == 0 <==> this == Open
      ensures n == 2 <==> this == Ended
    {
      match this
      case Open => 0
      case Closed => 1
      case Ended => 2
    }
  }

  /** The price that marks a bid whose price has not been revealed yet. */
  const HiddenPrice: uint64 := 0

  /** The length in bytes of a hidden commitment (512 bits of SHAKE256 output). */
  const CommitLength: nat := 64

  /** The shortest salt a bidder may reveal with. */
  const MinSaltLength: nat := 64

  /**
   * A bid. `buyer` is the bidder's certificate in DER form; `bidPrice` is
   * `HiddenPrice` until the bidder reveals it; `hiddenCommit` is the
   * 64-byte commitment computed by `AuctionUtils.HashBid`.
   */
  datatype Bid = Bid(buyer: Bytes, bidPrice: uint64, hiddenCommit: Bytes)
  {
    predicate IsHidden() { bidPrice == HiddenPrice }
  }

  /**
   * An auction. `directBuyPrice == 0` disables direct buying; `winner` is
   * `None` (Go's nil) until the auction ends with a winner; `hammerPrice`
   * is 0 until the auction ends.
   */
  datatype Auction = Auction(
    name: string,
    seller: Bytes,
    status: AuctionStatus,
    directBuyPrice: uint64,
    bids: seq<Bid>,
    winner: Option<Bytes>,
    hammerPrice: uint64)
  {
    predicate DirectBuyEnabled() { directBuyPrice != 0 }
  }

  /** The outcome published once an auction ends. */
  datatype AuctionResult = AuctionResult(winner: Option<Bytes>, directBuy: bool, hammerPrice: uint64)

  /** The status information published as an event. `result` is set only when the auction ends. */
  datatype AuctionSummary = AuctionSummary(
    name: string,
    seller: Bytes,
    status: AuctionStatus,
    directBuyPrice: uint64,
    result: Option<AuctionResult>)

  /**
   * The summary of `a` that the contract publishes. `directBuy` says whether
   * the auction was ended by a direct purchase; it only matters once the
   * auction has ended.
   */
  function SummaryOf(a: Auction, directBuy: bool): (s: AuctionSummary)
    ensures s.name == a.name && s.seller == a.seller && s.status == a.status
    ensures s.directBuyPrice == a.directBuyPrice
    ensures s.result.Some? <==> a.status == Ended
    ensures s.result.Some? ==>
      s.result.value.winner == a.winner && s.result.value.hammerPrice == a.hammerPrice &&
      s.result.value.directBuy == directBuy
  {
    AuctionSummary(a.name, a.seller, a.status, a.directBuyPrice,
      if a.status == Ended then Some(AuctionResult(a.winner, directBuy, a.hammerPrice)) else None)
  }
}

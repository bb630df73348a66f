# Vickrey auction chaincode, modelled in Dafny

This project models the smart contract of a Hyperledger Fabric chaincode
that runs a sealed-bid, second-price (Vickrey) auction, and proves
properties of the model.

- A seller creates an auction, optionally with a direct-buy price.
- Buyers submit hidden bids. Each hidden bid is a 64-byte SHAKE256
  commitment to the buyer's certificate, a price and a salt.
- Buyers then reveal their prices.
- The seller ends the auction. Among the buyers tied at the highest price,
  one is chosen at random, and they pay the price of the second entry of
  the descending ranking of buyers.
- Alternatively, anyone may end the auction early by paying at least the
  direct-buy price.

Modules, one per source file:

- `AuctionTypes` (`auction_types.dfy`): the records of `auction-types.go`.
  These are the status enum, the bid with its price-0 "hidden" sentinel,
  the auction, and the summary and result published in events.
- `AuctionUtils` (`auction_utils.dfy`): from `auction-utils.go`.
  - The world-state key `"auction " + name`.
  - The commitment input: the certificate, then the price as 8 big-endian
    bytes, then the salt.
  - `hashBid` as a loop that absorbs three slices.
- `Utils` (`utils.go`):
  - The 4-byte little-endian `intToByteArray`.
  - The conversion of a certificate between DER and PEM. PEM is the
    `CERTIFICATE` block of sections 2 and 5.1 of RFC 7468.
- `Base64`: the standard base64 encoding of section 4 of RFC 4648 and the
  64-column wrapping that PEM uses. It is written out only so that the PEM
  round trip can be proved.
- `WinnerDetermination`: the winner determination inside `EndAuction`.
  - The first loop builds a map from each buyer's PEM certificate to their
    highest bid.
  - The second loop turns the map into a slice.
  - The slice is sorted.
  - The third loop counts the candidates tied at the top.
  - The hammer price and the random pick follow.
- `VickreyAuction` (`auction.dfy`): the six contract methods. Each is a
  transition on the world state, a map from key to auction. It returns
  either an error or the new world state together with the summary event
  it publishes.

How the model stands in for what it does not run:

- SHAKE256 is the parameter `xof`: any function returning as many bytes as
  asked for.
- `crypto/rand` is the parameter `pick`, which returns an index below `n`.
- The caller is identified by the DER bytes of their certificate.
- A hex argument arrives already decoded, as `Option<Bytes>`. `None` stands
  for a string that does not decode.
- Go ranges over a map in no fixed order, and `sort.Slice` is not stable.
  The model therefore picks any unvisited key in the second loop. Every
  property of the result is proved for every descending ranking of the
  buyers, not only for the one the insertion sort yields.

Two invariants are proved for every method that succeeds on a valid world
state:

- `ValidLedger`: every auction is stored under the key of its own name,
  every commitment has 64 bytes, and an auction has a winner and a nonzero
  hammer price only once it has ended.
- `Progresses`: no auction disappears, no status moves back, and the winner
  and hammer price of an ended auction never change.

## Notable behaviour of the code

- **Tie at the top.** The hammer price is the price of the second entry
  of the descending ranking (auction.go:359-363). It is not the first
  price below the group of tied buyers. So bids of 40, 40 and 20 settle
  at 40, not at 20. The other 40-bidder loses, so 40 is the highest losing
  bid, which is the textbook second-price rule. The model follows the
  code:
  - `WinnerDetermination.IsSecondPrice` states this rule.
  - `WinnerDetermination.TiePriceExample` proves that bids of 40, 40 and
    20 settle at 40.
  - `WinnerDetermination.SettlementPaysAtMostWinnersBid` proves that on a
    tie the winner always pays their own bid.
- **EndAuction accepts an open auction.** The only status check in
  EndAuction (auction.go:292) turns a call on an ended auction into a
  success that changes nothing. Any other auction, including one that is
  still open, is ended once all its bids are revealed. Closing the auction
  first is therefore optional. The model does the same.

## Model

| member | source | states |
|---|---|---|
| AuctionTypes.AuctionStatus.Ord | chaincode-go/smart-contract/auction-types.go:7-14 | statuses are numbered Open = 0 < Closed = 1 < Ended = 2 as by `iota`; 0 exactly for Open, 2 exactly for Ended |
| AuctionTypes.SummaryOf | chaincode-go/smart-contract/auction-types.go:40-53 | a summary copies name, seller, status and direct-buy price; its result is set exactly when the auction has ended and then carries the winner, the hammer price and whether it was a direct buy |
| AuctionUtils.AuctionKey | chaincode-go/smart-contract/auction-utils.go:14-16 | the key is `"auction "` followed by the name, with length the sum of both |
| AuctionUtils.AuctionKeyInjective | chaincode-go/smart-contract/auction-utils.go:14-16 | two names share a key exactly when they are equal |
| AuctionUtils.BigEndian64 | chaincode-go/smart-contract/auction-utils.go:67-68 | the price is encoded in exactly 8 bytes |
| AuctionUtils.BigEndian64RoundTrip | chaincode-go/smart-contract/auction-utils.go:67-68 | reading the 8 bytes back most significant first gives the original 64-bit price |
| AuctionUtils.HashInput | chaincode-go/smart-contract/auction-utils.go:65-69 | the absorbed bytes are the certificate, then the 8 price bytes, then the salt, in that order |
| AuctionUtils.HashInputInjective | chaincode-go/smart-contract/auction-utils.go:65-69 | for a fixed certificate and salt, two prices give the same input exactly when they are equal |
| AuctionUtils.Commitment | chaincode-go/smart-contract/auction-utils.go:75-76 | a commitment is 64 bytes, the length Bid demands |
| AuctionUtils.HashBid | chaincode-go/smart-contract/auction-utils.go:65-80 | absorbing the three slices one after the other and reading 64 bytes gives the commitment to (certificate, price, salt) |
| Utils.IntToByteArray | chaincode-go/smart-contract/utils.go:46-53 | exactly 4 bytes; byte k is `(val >> 8k) mod 256` with Go's arithmetic shift; read little-endian they give `val mod 2^32` |
| Utils.CertDerToPem | chaincode-go/smart-contract/utils.go:24-35 | the PEM text starts with the `BEGIN CERTIFICATE` line and ends with the `END CERTIFICATE` line |
| Utils.CertPemToDer | chaincode-go/smart-contract/utils.go:38-44 | text without a certificate frame gives nil |
| Utils.PemRoundTrip | chaincode-go/smart-contract/utils.go:24-44 | converting a certificate to PEM and back gives the original DER bytes |
| Utils.CertDerToPemInjective | chaincode-go/smart-contract/utils.go:24-35 | two certificates have the same PEM text exactly when they are equal |
| Base64.DecodeEncode | chaincode-go/smart-contract/utils.go:25-29 | decoding the base64 encoding of any bytes, as written into the PEM body, gives them back |
| Base64.UnwrapWrap | chaincode-go/smart-contract/utils.go:39 | removing the line breaks of the 64-column body gives back the base64 text it was wrapped from |
| WinnerDetermination.HighestBidIsMaximal | chaincode-go/smart-contract/auction.go:307-310 | no bid of a buyer is above that buyer's highest bid |
| WinnerDetermination.HighestBidIsABid | chaincode-go/smart-contract/auction.go:307-310 | a bidder's highest bid is one of their bids; a buyer with no bid has 0 |
| WinnerDetermination.TopPriceIsMaximal | chaincode-go/smart-contract/auction.go:359 | no bid is above the top price |
| WinnerDetermination.TopPriceIsABid | chaincode-go/smart-contract/auction.go:359 | the top price of a non-empty bid list is the price of one of its bids |
| WinnerDetermination.TopPriceIsSomeBiddersHighest | chaincode-go/smart-contract/auction.go:359-373 | every buyer's highest bid is at most the top price, and some bidder's highest bid equals it |
| WinnerDetermination.SecondPriceIsUnique | chaincode-go/smart-contract/auction.go:358-363 | the hammer price depends only on the bids, not on the ranking order |
| WinnerDetermination.SettlementPaysAtMostWinnersBid | chaincode-go/smart-contract/auction.go:358-388 | the winner's highest bid is the top price and the hammer price does not exceed it; on a tie at the top they are equal |
| WinnerDetermination.SettlementPriceIsPositive | chaincode-go/smart-contract/auction.go:337-388 | once every bid is revealed, an auction ends without a winner exactly when its hammer price is 0 |
| WinnerDetermination.SecondPriceExample | chaincode-go/smart-contract/auction.go:358-383 | bids of 10, 40 and 20 from three buyers: the 40-bidder wins and pays 20 |
| WinnerDetermination.TiePriceExample | chaincode-go/smart-contract/auction.go:358-383 | bids of 40, 40 and 20: one of the two 40-bidders wins and pays 40 |
| WinnerDetermination.CodecInjective | chaincode-go/smart-contract/auction.go:303-322 | under a PEM codec, grouping by PEM text groups by certificate bytes |
| WinnerDetermination.PemIsCodec | chaincode-go/smart-contract/utils.go:24-44 | certDerToPem followed by certPemToDer is the identity on certificates |
| WinnerDetermination.CollectHighestBids | chaincode-go/smart-contract/auction.go:296-311 | it succeeds exactly when no bid is hidden, and then its map holds, under every bidder's PEM text and nothing else, that bidder's highest bid |
| WinnerDetermination.PemMaximaIsPemMaxima | chaincode-go/smart-contract/auction.go:297-311 | after every revealed bid, the map the loop builds has each bidder's highest bid under their PEM key and no other keys |
| WinnerDetermination.PairsOf | chaincode-go/smart-contract/auction.go:318-330 | in any visiting order, the slice lists every key of the map exactly once, converted back to DER, with the price the map holds |
| WinnerDetermination.PairsListBidders | chaincode-go/smart-contract/auction.go:318-330 | that slice lists every bidder exactly once with their highest bid |
| WinnerDetermination.InsertByPrice | chaincode-go/smart-contract/auction.go:332-335 | inserting into a descending list keeps it descending and adds exactly the one entry |
| WinnerDetermination.SortByPrice | chaincode-go/smart-contract/auction.go:332-335 | the sorted slice is descending by price and a permutation of its input |
| WinnerDetermination.ListsBiddersReordered | chaincode-go/smart-contract/auction.go:332-335 | any permutation of a listing of the bidders is again such a listing |
| WinnerDetermination.RankBidders | chaincode-go/smart-contract/auction.go:296-335 | the ranking is refused exactly when some bid is hidden; otherwise it lists each bidder once, at their highest bid, in descending order |
| WinnerDetermination.RankingEmpty | chaincode-go/smart-contract/auction.go:338 | the ranking is empty exactly when there are no bids |
| WinnerDetermination.RankingHeadIsTop | chaincode-go/smart-contract/auction.go:359 | the first entry of a ranking carries the top price |
| WinnerDetermination.RankingTopBidders | chaincode-go/smart-contract/auction.go:365-373 | a ranked buyer is tied at the top exactly when their price equals the first entry's |
| WinnerDetermination.CandidatesAreTopBidders | chaincode-go/smart-contract/auction.go:365-373 | the counted prefix of the ranking holds exactly the buyers tied at the top price |
| WinnerDetermination.RankingSecondPrice | chaincode-go/smart-contract/auction.go:358-363 | the second entry's price (or the first's, for one buyer) is the second price: the top price on a tie or with a single bidder, otherwise the highest bid of the buyers below the top |
| WinnerDetermination.CountCandidates | chaincode-go/smart-contract/auction.go:367-373 | the count is at least 1; every counted entry is at the first entry's price, and the next entry, if any, is below it |
| WinnerDetermination.SettleRanking | chaincode-go/smart-contract/auction.go:337-388 | no bids give no winner and price 0; otherwise the winner is the candidate at the drawn index, the candidates are exactly the top bidders, and the hammer price is the second price |
| VickreyAuction.StoreKeepsValid | chaincode-go/smart-contract/auction-utils.go:43-49 | writing an auction back under its own name keeps the world state valid and progressing when the status does not move back and an ended result is kept |
| VickreyAuction.CreateAuction | chaincode-go/smart-contract/auction.go:178-214 | it fails exactly when the name is taken; otherwise it stores an open auction of the caller with the given direct-buy price, no bids, no winner and hammer price 0, and publishes its summary |
| VickreyAuction.CloseAuction | chaincode-go/smart-contract/auction.go:227-264 | missing auction or a caller who is not the seller fail; an auction that is not open is left as it is with no event, so closing twice is harmless; otherwise only the status becomes Closed |
| VickreyAuction.EndAuction | chaincode-go/smart-contract/auction.go:277-414 | it fails exactly on a missing auction, a caller who is not the seller, or a hidden bid in an auction not yet ended; an ended auction is left as it is; otherwise only status, winner and hammer price change, to Ended and a settlement of the bids, whether the auction was open or closed |
| VickreyAuction.Bid | chaincode-go/smart-contract/auction.go:425-467 | it fails exactly on a hex that does not decode, a commitment that is not 64 bytes, a missing auction or one that is not open; otherwise it appends exactly one hidden bid of the caller and changes nothing else |
| VickreyAuction.Revealed | chaincode-go/smart-contract/auction.go:517-526 | a bid changes exactly when it is the caller's, still hidden and committed to this hash, and then only its price, to the revealed one |
| VickreyAuction.OpenBid | chaincode-go/smart-contract/auction.go:475-532 | it fails exactly on price 0, a salt that does not decode or is shorter than 64 bytes, or a missing auction, whatever the status; otherwise every bid, not only the first match, becomes its revealed form and nothing else changes |
| VickreyAuction.DirectBuy | chaincode-go/smart-contract/auction.go:545-591 | it fails exactly on a missing or ended auction, a disabled direct buy or a payment below the price, whoever the caller is; otherwise the caller wins at the paid price, the auction ends with its bids untouched, and the event marks a direct buy |

## Left out

- Ledger I/O and JSON. `getAuction`, `putAuction`, `doesAuctionExist`, `GetState` and `PutState` are replaced by the map from key to auction. A key that is absent, where Go's `json.Unmarshal` of nothing fails, is the `NotFound` error. The failures of the ledger itself are not modelled.
- Events. `setAuctionSummaryEvent` is I/O. Each method returns the summary it would publish instead, and the failure of publishing is not modelled.
- Client identity. The caller is given as the DER bytes of their certificate. The failure of `GetSubmittingClientIdentity` and of `GetX509Certificate` is not modelled, and the certificate `hashBid` reads is taken to be the same identity.
- SHAKE256 internals. The hash is the parameter `xof`. Hiding and binding of the commitment are not proved, and the write and read errors of the SHAKE state, which cannot occur, are not modelled.
- Hex decoding. This is a library call; its result arrives as `Option<Bytes>`.
- The `contractapi.Contract` embedding and the Fabric SDK plumbing.
- The duplicated definitions in `auction.go`: the types, `auctionKey`, `hashBid` and the PEM helpers. Each is modelled once, from `auction-types.go`, `auction-utils.go` and `utils.go`.
- VickreyAuction.EndAuction: the failures of `crypto/rand` and the `IsUint64` check are not modelled. `pick` always returns an index below its argument. The two nil branches of the PEM conversions cannot be taken, which is proved: `CertDerToPem` always yields text and `PemIsCodec` gives back every certificate. So they are not error cases of the model.
- VickreyAuction.EndAuction: the map and the slices are values updated by assignment, not Go's in-place updates through pointers. The order Go visits the map in is any order the model may choose, and `sort.Slice` is an insertion sort. The winner properties are proved for every descending ranking, so they do not depend on this choice.
- VickreyAuction.OpenBid: the bids are revealed in a local copy of the sequence that is stored back. This is not an in-place update through `&auction.Bids[i]`.
- WinnerDetermination.CollectHighestBids and WinnerDetermination.PairsOf take the PEM conversions as parameters; `RankBidders` passes `Utils.CertDerToPem` and `Utils.CertPemToDer`. Their contracts therefore hold for any pair of conversions that round-trips.
- Utils.CertPemToDer: on text that `CertDerToPem` does not produce, the model and Go's `pem.Decode` differ in both directions. The model rejects several inputs that Go accepts: text before the BEGIN line or after the END line, block types other than `CERTIFICATE`, headers, trailing spaces or a carriage return on a boundary line, and a missing final newline. It also accepts one input that Go rejects: a body with no line break before the END line. Only `CertDerToPem`'s output reaches this function, and on that output the two agree (`PemRoundTrip`).
- Utils.CertDerToPem: Go's encoder fails only for headers that contain a colon. The block here has no headers, so the model returns the text and not an optional one.

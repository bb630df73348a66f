/**
 * The contract methods of auction.go as transitions of the world state.
 * The world state is a map from key to auction; each method reads one
 * auction, checks its conditions in the order Go checks them, and either
 * fails with an error or returns the new world state together with the
 * summary event it publishes, if any. The caller is identified by the DER
 * bytes of their certificate.
 */
module VickreyAuction {
  import opened AuctionTypes
  import opened AuctionUtils
  import W = WinnerDetermination

  /** Why a contract method fails. */
  datatype Error =
    | NotFound           // no auction under the key: Go's getAuction fails to unmarshal nothing
    | AlreadyExists      // CreateAuction on a name in use
    | NotSeller          // a seller-only method called by someone else
    | NotOpen            // Bid on an auction that is not open
    | AlreadyEnded       // DirectBuy on an ended auction
    | BadHex             // a hex argument that does not decode
    | BadCommitLength    // a commitment that is not 64 bytes
    | ZeroPrice          // OpenBid with price 0
    | ShortSalt          // OpenBid with a salt shorter than 64 bytes
    | BidsHidden         // EndAuction while a bid is still hidden
    | DirectBuyDisabled  // DirectBuy where the direct-buy price is 0
    | PaymentTooLow      // DirectBuy below the direct-buy price

  /** The world state: auctions stored under their keys. */
  type Ledger = map<string, Auction>

  /** What a successful call leaves behind: the new world state and the event it sets. */
  datatype Outcome = Outcome(ledger: Ledger, event: Option<AuctionSummary>)

  /** What every auction the contract stores satisfies. */
  ghost predicate ValidAuction(a: Auction)
  {
    && (forall j :: 0 <= j < |a.bids| ==> |a.bids[j].hiddenCommit| == CommitLength)
    && (a.status != Ended ==> a.winner == None && a.hammerPrice == 0)
    && (a.status == Ended ==> (a.winner == None <==> a.hammerPrice == 0))
  }

  /** Every auction is stored under the key of its own name. */
  ghost predicate ValidLedger(ledger: Ledger)
  {
    forall key :: key in ledger ==> key == AuctionKey(ledger[key].name) && ValidAuction(ledger[key])
  }

  /**
   * From `ledger` to `ledger'` no auction disappears, no status goes back,
   * and an ended auction keeps its winner and hammer price.
   */
  ghost predicate Progresses(ledger: Ledger, ledger': Ledger)
  {
    forall key :: key in ledger ==>
      && key in ledger'
      && ledger[key].status.Ord() <= ledger'[key].status.Ord()
      && ledger[key].name == ledger'[key].name
      && ledger[key].seller == ledger'[key].seller
      && (ledger[key].status == Ended ==>
            ledger'[key].winner == ledger[key].winner && ledger'[key].hammerPrice == ledger[key].hammerPrice)
  }

  /**
   * Storing `a'` back over the valid auction `a` keeps the ledger valid and
   * progressing, when `a'` is valid, keeps the name and seller, does not
   * move the status back, and keeps the result of an ended auction.
   */
  lemma StoreKeepsValid(ledger: Ledger, a: Auction, a': Auction)
    requires ValidLedger(ledger)
    requires AuctionKey(a.name) in ledger && ledger[AuctionKey(a.name)] == a
    requires ValidAuction(a') && a'.name == a.name && a'.seller == a.seller
    requires a.status.Ord() <= a'.status.Ord()
    requires a.status == Ended ==> a'.winner == a.winner && a'.hammerPrice == a.hammerPrice
    ensures ValidLedger(ledger[AuctionKey(a.name) := a'])
    ensures Progresses(ledger, ledger[AuctionKey(a.name) := a'])
  {
  }

  /**
   * CreateAuction: a new open auction of the caller, with no bids, no
   * winner and hammer price 0, unless the name is taken.
   */
  method CreateAuction(ledger: Ledger, caller: Bytes, auctionName: string, directBuyPrice: uint64)
    returns (r: Result<Outcome, Error>)
    ensures r.Err? <==> AuctionKey(auctionName) in ledger
    ensures r.Err? ==> r.error == AlreadyExists
    ensures r.Ok? ==>
      var a := Auction(auctionName, caller, Open, directBuyPrice, [], None, 0);
      && r.value.ledger == ledger[AuctionKey(auctionName) := a]
      && r.value.event == Some(SummaryOf(a, false))
    ensures r.Ok? && ValidLedger(ledger) ==>
      ValidLedger(r.value.ledger) && Progresses(ledger, r.value.ledger)
  {
    var auctionExists := AuctionKey(auctionName) in ledger;
    if auctionExists {
      return Err(AlreadyExists);
    }
    var auction := Auction(
      name := auctionName,
      seller := caller,
      status := Open,
      directBuyPrice := directBuyPrice,
      bids := [],
      winner := None,
      hammerPrice := 0);
    var ledger' := ledger[AuctionKey(auction.name) := auction];
    return Ok(Outcome(ledger', Some(SummaryOf(auction, false))));
  }

  /**
   * CloseAuction: the seller moves an open auction to closed; on an
   * auction that is not open it succeeds and changes nothing.
   */
  method CloseAuction(ledger: Ledger, caller: Bytes, auctionName: string)
    returns (r: Result<Outcome, Error>)
    ensures var key := AuctionKey(auctionName);
      r.Err? <==> key !in ledger || ledger[key].seller != caller
    ensures r.Err? ==> r.error == if AuctionKey(auctionName) in ledger then NotSeller else NotFound
    ensures r.Ok? ==>
      var a := ledger[AuctionKey(auctionName)];
      if a.status != Open then r.value == Outcome(ledger, None)
      else
        var a' := a.(status := Closed);
        && r.value.ledger == ledger[AuctionKey(a.name) := a']
        && r.value.event == Some(SummaryOf(a', false))
    ensures r.Ok? && ValidLedger(ledger) ==>
      ValidLedger(r.value.ledger) && Progresses(ledger, r.value.ledger)
  {
    var key := AuctionKey(auctionName);
    if key !in ledger {
      return Err(NotFound);
    }
    var auction := ledger[key];
    if auction.seller != caller {
      return Err(NotSeller);
    }
    if auction.status != Open {
      return Ok(Outcome(ledger, None));
    }
    auction := auction.(status := Closed);
    var ledger' := ledger[AuctionKey(auction.name) := auction];
    return Ok(Outcome(ledger', Some(SummaryOf(auction, false))));
  }

  /**
   * EndAuction: the seller ends an auction that has not ended, whether it
   * is open or closed, provided every bid is revealed. With no bids there
   * is no winner and the hammer price is 0; otherwise the winner is drawn
   * among the buyers tied at the top, by `pick` (crypto/rand's draw below
   * n), and pays the second price. On an ended auction it succeeds and
   * changes nothing.
   */
  method EndAuction(ledger: Ledger, caller: Bytes, auctionName: string, pick: nat -> nat)
    returns (r: Result<Outcome, Error>)
    requires forall n: nat :: 0 < n ==> pick(n) < n
    ensures var key := AuctionKey(auctionName);
      r.Err? <==>
        || key !in ledger
        || ledger[key].seller != caller
        || (ledger[key].status != Ended &&
            exists j :: 0 <= j < |ledger[key].bids| && ledger[key].bids[j].IsHidden())
    ensures r.Err? ==>
      var key := AuctionKey(auctionName);
      r.error == if key !in ledger then NotFound else if ledger[key].seller != caller then NotSeller else BidsHidden
    ensures r.Ok? ==>
      var a := ledger[AuctionKey(auctionName)];
      if a.status == Ended then r.value == Outcome(ledger, None)
      else
        && AuctionKey(a.name) in r.value.ledger
        && (var a' := r.value.ledger[AuctionKey(a.name)];
            && a' == a.(status := Ended, winner := a'.winner, hammerPrice := a'.hammerPrice)
            && W.IsSettlement(a.bids, a'.winner, a'.hammerPrice)
            && r.value.ledger == ledger[AuctionKey(a.name) := a']
            && r.value.event == Some(SummaryOf(a', false)))
    ensures r.Ok? && ValidLedger(ledger) ==>
      ValidLedger(r.value.ledger) && Progresses(ledger, r.value.ledger)
  {
    var key := AuctionKey(auctionName);
    if key !in ledger {
      return Err(NotFound);
    }
    var auction := ledger[key];
    if auction.seller != caller {
      return Err(NotSeller);
    }
    if auction.status == Ended {
      return Ok(Outcome(ledger, None));
    }
    var ranking := W.RankBidders(auction.bids);
    if ranking.None? {
      return Err(BidsHidden);
    }
    var winner, hammerPrice, _ := W.SettleRanking(auction.bids, ranking.value, pick);
    W.SettlementPriceIsPositive(auction.bids, winner, hammerPrice);
    var ended := auction.(hammerPrice := hammerPrice, winner := winner, status := Ended);
    if ValidLedger(ledger) {
      StoreKeepsValid(ledger, auction, ended);
    }
    auction := ended;
    var ledger' := ledger[AuctionKey(auction.name) := auction];
    return Ok(Outcome(ledger', Some(SummaryOf(auction, false))));
  }

  /**
   * Bid: the caller adds a hidden bid to an open auction. `hiddenCommit`
   * is the commitment already decoded from its hex text, or None when that
   * text is not valid hex.
   */
  method Bid(ledger: Ledger, caller: Bytes, auctionName: string, hiddenCommit: Option<Bytes>)
    returns (r: Result<Outcome, Error>)
    ensures var key := AuctionKey(auctionName);
      r.Err? <==>
        || hiddenCommit.None?
        || |hiddenCommit.value| != CommitLength
        || key !in ledger
        || ledger[key].status != Open
    ensures r.Err? ==>
      var key := AuctionKey(auctionName);
      r.error ==
        if hiddenCommit.None? then BadHex
        else if |hiddenCommit.value| != CommitLength then BadCommitLength
        else if key !in ledger then NotFound
        else NotOpen
    ensures r.Ok? ==>
      var a := ledger[AuctionKey(auctionName)];
      var a' := a.(bids := a.bids + [AuctionTypes.Bid(caller, HiddenPrice, hiddenCommit.value)]);
      r.value == Outcome(ledger[AuctionKey(a.name) := a'], None)
    ensures r.Ok? && ValidLedger(ledger) ==>
      ValidLedger(r.value.ledger) && Progresses(ledger, r.value.ledger)
  {
    if hiddenCommit.None? {
      return Err(BadHex);
    }
    var commit := hiddenCommit.value;
    if |commit| != CommitLength {
      return Err(BadCommitLength);
    }
    var key := AuctionKey(auctionName);
    if key !in ledger {
      return Err(NotFound);
    }
    var auction := ledger[key];
    if auction.status != Open {
      return Err(NotOpen);
    }
    auction := auction.(bids := auction.bids + [AuctionTypes.Bid(caller, HiddenPrice, commit)]);
    var ledger' := ledger[AuctionKey(auction.name) := auction];
    return Ok(Outcome(ledger', None));
  }

  /** The bid `b` once `caller` reveals `bidPrice` with commitment `hash`. */
  function Revealed(b: AuctionTypes.Bid, caller: Bytes, bidPrice: uint64, hash: Bytes): (b': AuctionTypes.Bid)
    ensures b'.buyer == b.buyer && b'.hiddenCommit == b.hiddenCommit
    ensures b' != b <==> b.buyer == caller && b.IsHidden() && b.hiddenCommit == hash && bidPrice != HiddenPrice
    ensures b' != b ==> b'.bidPrice == bidPrice
  {
    if b.buyer == caller && b.IsHidden() && b.hiddenCommit == hash then b.(bidPrice := bidPrice) else b
  }

  /**
   * OpenBid: reveals `bidPrice` on every hidden bid of the caller whose
   * commitment is the hash of the caller's certificate, the price and the
   * salt. There is no status check, so bids of an ended auction can be
   * revealed too; a call that matches no bid succeeds and changes nothing
   * but the stored copy. `salt` is the salt already decoded from its hex
   * text, or None when that text is not valid hex; `xof` is SHAKE256.
   */
  method OpenBid(ledger: Ledger, caller: Bytes, auctionName: string, bidPrice: uint64,
                 salt: Option<Bytes>, xof: Xof)
    returns (r: Result<Outcome, Error>)
    ensures var key := AuctionKey(auctionName);
      r.Err? <==> bidPrice == 0 || salt.None? || |salt.value| < MinSaltLength || key !in ledger
    ensures r.Err? ==>
      r.error ==
        if bidPrice == 0 then ZeroPrice
        else if salt.None? then BadHex
        else if |salt.value| < MinSaltLength then ShortSalt
        else NotFound
    ensures r.Ok? ==>
      var a := ledger[AuctionKey(auctionName)];
      var hash := Commitment(xof, caller, bidPrice, salt.value);
      && AuctionKey(a.name) in r.value.ledger
      && (var a' := r.value.ledger[AuctionKey(a.name)];
          && r.value == Outcome(ledger[AuctionKey(a.name) := a'], None)
          && a' == a.(bids := a'.bids)
          && |a'.bids| == |a.bids|
          && (forall j :: 0 <= j < |a.bids| ==> a'.bids[j] == Revealed(a.bids[j], caller, bidPrice, hash)))
    ensures r.Ok? && ValidLedger(ledger) ==>
      ValidLedger(r.value.ledger) && Progresses(ledger, r.value.ledger)
  {
    if bidPrice == 0 {
      return Err(ZeroPrice);
    }
    if salt.None? {
      return Err(BadHex);
    }
    var saltBytes := salt.value;
    if |saltBytes| < MinSaltLength {
      return Err(ShortSalt);
    }
    var key := AuctionKey(auctionName);
    if key !in ledger {
      return Err(NotFound);
    }
    var auction := ledger[key];
    var bidHash := HashBid(xof, caller, bidPrice, saltBytes);
    var bids := auction.bids;
    for i := 0 to |bids|
      invariant |bids| == |auction.bids|
      invariant forall j :: 0 <= j < i ==> bids[j] == Revealed(auction.bids[j], caller, bidPrice, bidHash)
      invariant forall j :: i <= j < |bids| ==> bids[j] == auction.bids[j]
    {
      var bid := bids[i];
      if bid.buyer == caller && bid.bidPrice == HiddenPrice {
        if bid.hiddenCommit == bidHash {
          bids := bids[i := bid.(bidPrice := bidPrice)];
        }
      }
    }
    auction := auction.(bids := bids);
    var ledger' := ledger[AuctionKey(auction.name) := auction];
    return Ok(Outcome(ledger', None));
  }

  /**
   * DirectBuy: anyone, the seller included, ends an auction that has not
   * ended by paying at least its direct-buy price; they become the winner
   * and the payment the hammer price. The bids stay as they are.
   */
  method DirectBuy(ledger: Ledger, caller: Bytes, auctionName: string, price: uint64)
    returns (r: Result<Outcome, Error>)
    ensures var key := AuctionKey(auctionName);
      r.Err? <==>
        || key !in ledger
        || ledger[key].status == Ended
        || !ledger[key].DirectBuyEnabled()
        || price < ledger[key].directBuyPrice
    ensures r.Err? ==>
      var key := AuctionKey(auctionName);
      r.error ==
        if key !in ledger then NotFound
        else if ledger[key].status == Ended then AlreadyEnded
        else if !ledger[key].DirectBuyEnabled() then DirectBuyDisabled
        else PaymentTooLow
    ensures r.Ok? ==>
      var a := ledger[AuctionKey(auctionName)];
      var a' := a.(hammerPrice := price, winner := Some(caller), status := Ended);
      && r.value.ledger == ledger[AuctionKey(a.name) := a']
      && r.value.event == Some(SummaryOf(a', true))
    ensures r.Ok? && ValidLedger(ledger) ==>
      ValidLedger(r.value.ledger) && Progresses(ledger, r.value.ledger)
  {
    var key := AuctionKey(auctionName);
    if key !in ledger {
      return Err(NotFound);
    }
    var auction := ledger[key];
    if auction.status == Ended {
      return Err(AlreadyEnded);
    }
    if !auction.DirectBuyEnabled() {
      return Err(DirectBuyDisabled);
    }
    if price < auction.directBuyPrice {
      return Err(PaymentTooLow);
    }
    auction := auction.(hammerPrice := price, winner := Some(caller), status := Ended);
    var ledger' := ledger[AuctionKey(auction.name) := auction];
    return Ok(Outcome(ledger', Some(SummaryOf(auction, true))));
  }
}

/**
 * Winner determination of EndAuction (auction.go): each buyer counts once,
 * at their highest revealed bid; buyers are ranked by price, descending;
 * one of the buyers tied at the top wins, and the hammer price is the price
 * of the second entry of the ranking.
 *
 * Go ranges over a map in no fixed order and `sort.Slice` is not stable, so
 * the order among equal prices is arbitrary. Everything proved here holds
 * for every descending ranking.
 */
module WinnerDetermination {
  import opened AuctionTypes
  import Utils

  /** The buyers that placed at least one bid. */
  function Bidders(bids: seq<Bid>): (r: set<Bytes>)
    ensures |bids| == 0 <==> r == {}
  {
    var r := set j | 0 <= j < |bids| :: bids[j].buyer;
    assert |bids| > 0 ==> bids[0].buyer in r;
    r
  }

  /** The highest price `buyer` bid, 0 when they placed no bid. */
  function HighestBidOf(bids: seq<Bid>, buyer: Bytes): uint64
  {
    if |bids| == 0 then 0
    else
      var last := bids[|bids| - 1];
      var h := HighestBidOf(bids[..|bids| - 1], buyer);
      if last.buyer == buyer && last.bidPrice > h then last.bidPrice else h
  }

  /** No bid of a buyer exceeds their highest bid. */
  lemma {:induction false} HighestBidIsMaximal(bids: seq<Bid>, j: int)
    requires 0 <= j < |bids|
    ensures bids[j].bidPrice <= HighestBidOf(bids, bids[j].buyer)
  {
    if j < |bids| - 1 {
      var prev := bids[..|bids| - 1];
      assert prev[j] == bids[j];
      HighestBidIsMaximal(prev, j);
    }
  }

  /** A bidder's highest bid is one of their bids; a buyer who did not bid has 0. */
  lemma {:induction false} HighestBidIsABid(bids: seq<Bid>, buyer: Bytes)
    ensures buyer in Bidders(bids) ==>
      exists j :: 0 <= j < |bids| && bids[j].buyer == buyer && bids[j].bidPrice == HighestBidOf(bids, buyer)
    ensures buyer !in Bidders(bids) ==> HighestBidOf(bids, buyer) == 0
  {
    if |bids| > 0 {
      var prev, last := bids[..|bids| - 1], bids[|bids| - 1];
      HighestBidIsABid(prev, buyer);
      BiddersLast(bids);
      if buyer in Bidders(prev) {
        var j :| 0 <= j < |prev| && prev[j].buyer == buyer && prev[j].bidPrice == HighestBidOf(prev, buyer);
        assert bids[j] == prev[j];
      }
      assert last == bids[|bids| - 1];
    }
  }

  /** The highest price of all bids, 0 when there is none. */
  function TopPrice(bids: seq<Bid>): uint64
  {
    if |bids| == 0 then 0
    else
      var t := TopPrice(bids[..|bids| - 1]);
      if bids[|bids| - 1].bidPrice > t then bids[|bids| - 1].bidPrice else t
  }

  /** No bid exceeds the top price. */
  lemma {:induction false} TopPriceIsMaximal(bids: seq<Bid>, j: int)
    requires 0 <= j < |bids|
    ensures bids[j].bidPrice <= TopPrice(bids)
  {
    if j < |bids| - 1 {
      var prev := bids[..|bids| - 1];
      assert prev[j] == bids[j];
      TopPriceIsMaximal(prev, j);
    }
  }

  /** The top price of a non-empty sequence of bids is the price of one of them. */
  lemma {:induction false} TopPriceIsABid(bids: seq<Bid>)
    requires |bids| > 0
    ensures exists j :: 0 <= j < |bids| && bids[j].bidPrice == TopPrice(bids)
  {
    var prev := bids[..|bids| - 1];
    if |prev| > 0 && TopPrice(bids) == TopPrice(prev) {
      TopPriceIsABid(prev);
      var j :| 0 <= j < |prev| && prev[j].bidPrice == TopPrice(prev);
      assert bids[j] == prev[j];
    } else {
      assert bids[|bids| - 1].bidPrice == TopPrice(bids);
    }
  }

  /** The buyers whose highest bid is the top price. */
  ghost function TopBidders(bids: seq<Bid>): set<Bytes>
  {
    set b | b in Bidders(bids) && HighestBidOf(bids, b) == TopPrice(bids)
  }

  /** At least two distinct buyers share the top price. */
  ghost predicate TieAtTop(bids: seq<Bid>)
  {
    exists a, b :: a in TopBidders(bids) && b in TopBidders(bids) && a != b
  }

  /**
   * `hammer` is the second price of the Vickrey rule as the code computes
   * it: the top price itself when two buyers tie at the top or only one
   * buyer bid, and otherwise the highest price among the other buyers.
   */
  ghost predicate IsSecondPrice(bids: seq<Bid>, hammer: uint64)
  {
    if TieAtTop(bids) || Bidders(bids) == TopBidders(bids) then hammer == TopPrice(bids)
    else
      && (exists b :: b in Bidders(bids) - TopBidders(bids) && hammer == HighestBidOf(bids, b))
      && (forall b :: b in Bidders(bids) - TopBidders(bids) ==> HighestBidOf(bids, b) <= hammer)
  }

  /** The outcome of ending an auction whose bids are `bids`. */
  ghost predicate IsSettlement(bids: seq<Bid>, winner: Option<Bytes>, hammer: uint64)
  {
    if |bids| == 0 then winner == None && hammer == 0
    else winner.Some? && winner.value in TopBidders(bids) && IsSecondPrice(bids, hammer)
  }

  /** Every bidder's highest bid is at most the top price, and some bidder's equals it. */
  lemma TopPriceIsSomeBiddersHighest(bids: seq<Bid>)
    requires |bids| > 0
    ensures forall b :: HighestBidOf(bids, b) <= TopPrice(bids)
    ensures exists b :: b in TopBidders(bids)
  {
    forall b ensures HighestBidOf(bids, b) <= TopPrice(bids) {
      HighestBidIsABid(bids, b);
      if b in Bidders(bids) {
        var j :| 0 <= j < |bids| && bids[j].buyer == b && bids[j].bidPrice == HighestBidOf(bids, b);
        TopPriceIsMaximal(bids, j);
      }
    }
    TopPriceIsABid(bids);
    var j :| 0 <= j < |bids| && bids[j].bidPrice == TopPrice(bids);
    var b := bids[j].buyer;
    HighestBidIsMaximal(bids, j);
    assert b in Bidders(bids);
    assert b in TopBidders(bids);
  }

  /** The second price does not depend on anything but the bids. */
  lemma SecondPriceIsUnique(bids: seq<Bid>, h1: uint64, h2: uint64)
    requires IsSecondPrice(bids, h1) && IsSecondPrice(bids, h2)
    ensures h1 == h2
  {
    if !(TieAtTop(bids) || Bidders(bids) == TopBidders(bids)) {
      var b1 :| b1 in Bidders(bids) - TopBidders(bids) && h1 == HighestBidOf(bids, b1);
      var b2 :| b2 in Bidders(bids) - TopBidders(bids) && h2 == HighestBidOf(bids, b2);
      assert HighestBidOf(bids, b1) <= h2 && HighestBidOf(bids, b2) <= h1;
    }
  }

  /**
   * The winner pays at most their own highest bid, which is the top price;
   * on a tie at the top they pay exactly that.
   */
  lemma SettlementPaysAtMostWinnersBid(bids: seq<Bid>, w: Bytes, hammer: uint64)
    requires IsSettlement(bids, Some(w), hammer)
    ensures hammer <= HighestBidOf(bids, w) == TopPrice(bids)
    ensures TieAtTop(bids) ==> hammer == HighestBidOf(bids, w)
  {
    TopPriceIsSomeBiddersHighest(bids);
    if !(TieAtTop(bids) || Bidders(bids) == TopBidders(bids)) {
      var b :| b in Bidders(bids) - TopBidders(bids) && hammer == HighestBidOf(bids, b);
    }
  }

  /**
   * Once every bid is revealed, a settlement has a winner exactly when its
   * hammer price is positive.
   */
  lemma SettlementPriceIsPositive(bids: seq<Bid>, winner: Option<Bytes>, hammer: uint64)
    requires forall j :: 0 <= j < |bids| ==> !bids[j].IsHidden()
    requires IsSettlement(bids, winner, hammer)
    ensures winner.None? <==> hammer == 0
  {
    if |bids| > 0 {
      if TieAtTop(bids) || Bidders(bids) == TopBidders(bids) {
        TopPriceIsABid(bids);
      } else {
        var b :| b in Bidders(bids) - TopBidders(bids) && hammer == HighestBidOf(bids, b);
        HighestBidIsABid(bids, b);
      }
    }
  }

  /**
   * A worked example: buyers 1, 2 and 3 bid 10, 40 and 20. Every
   * settlement makes buyer 2 the winner at the second price, 20.
   */
  lemma SecondPriceExample(winner: Option<Bytes>, hammer: uint64)
    requires IsSettlement([Bid([1], 10, []), Bid([2], 40, []), Bid([3], 20, [])], winner, hammer)
    ensures winner == Some([2]) && hammer == 20
  {
    var bids := [Bid([1], 10, []), Bid([2], 40, []), Bid([3], 20, [])];
    assert Bidders(bids) == {[1], [2], [3]} by {
      assert bids[0].buyer == [1] && bids[1].buyer == [2] && bids[2].buyer == [3];
    }
    var b0, b1, b2 := bids[0], bids[1], bids[2];
    assert bids[..2] == [b0, b1] && [b0, b1][..1] == [b0] && [b0][..0] == [];
    assert TopPrice([b0]) == 10;
    assert TopPrice([b0, b1]) == 40;
    assert TopPrice(bids) == 40;
    assert HighestBidOf([b0], [1]) == 10 && HighestBidOf([b0], [2]) == 0 && HighestBidOf([b0], [3]) == 0;
    assert HighestBidOf([b0, b1], [1]) == 10 && HighestBidOf([b0, b1], [2]) == 40 && HighestBidOf([b0, b1], [3]) == 0;
    assert HighestBidOf(bids, [1]) == 10 && HighestBidOf(bids, [2]) == 40 && HighestBidOf(bids, [3]) == 20;
    assert TopBidders(bids) == {[2]};
    assert !TieAtTop(bids);
  }

  /**
   * A tie at the top: buyers 1 and 2 both bid 40 and buyer 3 bids 20.
   * One of the tied buyers wins and pays the tied price 40, not 20.
   */
  lemma TiePriceExample(winner: Option<Bytes>, hammer: uint64)
    requires IsSettlement([Bid([1], 40, []), Bid([2], 40, []), Bid([3], 20, [])], winner, hammer)
    ensures (winner == Some([1]) || winner == Some([2])) && hammer == 40
  {
    var bids := [Bid([1], 40, []), Bid([2], 40, []), Bid([3], 20, [])];
    var b0, b1, b2 := bids[0], bids[1], bids[2];
    assert Bidders(bids) == {[1], [2], [3]};
    assert bids[..2] == [b0, b1] && [b0, b1][..1] == [b0] && [b0][..0] == [];
    assert TopPrice([b0]) == 40;
    assert TopPrice([b0, b1]) == 40;
    assert TopPrice(bids) == 40;
    assert HighestBidOf([b0], [1]) == 40 && HighestBidOf([b0], [2]) == 0 && HighestBidOf([b0], [3]) == 0;
    assert HighestBidOf([b0, b1], [1]) == 40 && HighestBidOf([b0, b1], [2]) == 40 && HighestBidOf([b0, b1], [3]) == 0;
    assert HighestBidOf(bids, [1]) == 40 && HighestBidOf(bids, [2]) == 40 && HighestBidOf(bids, [3]) == 20;
    assert TopBidders(bids) == {[1], [2]};
    var one: Bytes, two: Bytes := [1], [2];
    assert one != two by { assert one[0] != two[0]; }
    assert TieAtTop(bids) by {
      assert one in TopBidders(bids) && two in TopBidders(bids);
    }
  }

  /** A buyer with their highest bid: Go's `BidPriceBuyerPair`. */
  datatype Standing = Standing(bidPrice: uint64, buyer: Bytes)

  /** Prices never increase along `s`. */
  predicate Descending(s: seq<Standing>)
  {
    forall i, j :: 0 <= i < j < |s| ==> s[i].bidPrice >= s[j].bidPrice
  }

  /** No buyer appears twice in `s`. */
  predicate DistinctBuyers(s: seq<Standing>)
  {
    forall i, j :: 0 <= i < j < |s| ==> s[i].buyer != s[j].buyer
  }

  /** `s` lists every bidder exactly once, with their highest bid. */
  ghost predicate ListsBidders(bids: seq<Bid>, s: seq<Standing>)
  {
    && (forall i :: 0 <= i < |s| ==>
          s[i].buyer in Bidders(bids) && s[i].bidPrice == HighestBidOf(bids, s[i].buyer))
    && (forall b :: b in Bidders(bids) ==> exists i :: 0 <= i < |s| && s[i].buyer == b)
    && DistinctBuyers(s)
  }

  /** `s` is one of the orders the Go code may produce. */
  ghost predicate IsRanking(bids: seq<Bid>, s: seq<Standing>)
  {
    ListsBidders(bids, s) && Descending(s)
  }

  /**
   * A certificate codec: `pemOf` turns DER bytes into PEM text and `derOf`
   * turns it back. EndAuction uses certDerToPem and certPemToDer, which
   * form one (Utils.PemRoundTrip); the loops below are stated for any codec
   * so that their proofs need only this round trip.
   */
  ghost predicate IsCodec(pemOf: Bytes -> string, derOf: string -> Option<Bytes>)
  {
    forall der :: derOf(pemOf(der)) == Some(der)
  }

  /** Distinct certificates have distinct PEM texts under a codec. */
  lemma CodecInjective(pemOf: Bytes -> string, derOf: string -> Option<Bytes>, a: Bytes, b: Bytes)
    requires IsCodec(pemOf, derOf)
    ensures pemOf(a) == pemOf(b) <==> a == b
  {
    assert derOf(pemOf(a)) == Some(a) && derOf(pemOf(b)) == Some(b);
  }

  /** certDerToPem and certPemToDer form a codec. */
  lemma PemIsCodec()
    ensures IsCodec(Utils.CertDerToPem, Utils.CertPemToDer)
  {
    forall der ensures Utils.CertPemToDer(Utils.CertDerToPem(der)) == Some(der) {
      Utils.PemRoundTrip(der);
    }
  }

  /** Every key of `m` is the PEM text of a bidder's certificate. */
  ghost predicate KeysArePems(pemOf: Bytes -> string, bids: seq<Bid>, m: map<string, uint64>)
  {
    forall k :: k in m ==> exists j :: 0 <= j < |bids| && pemOf(bids[j].buyer) == k
  }

  /** `m` holds, under the PEM text of every bidder, that bidder's highest bid. */
  ghost predicate HoldsHighestBids(pemOf: Bytes -> string, bids: seq<Bid>, m: map<string, uint64>)
  {
    forall j :: 0 <= j < |bids| ==>
      var pem := pemOf(bids[j].buyer);
      pem in m && m[pem] == HighestBidOf(bids, bids[j].buyer)
  }

  /**
   * The map EndAuction builds: keyed by the buyer's certificate in PEM form,
   * it holds each bidder's highest bid and nothing else.
   */
  ghost predicate IsPemMaxima(pemOf: Bytes -> string, bids: seq<Bid>, m: map<string, uint64>)
  {
    KeysArePems(pemOf, bids, m) && HoldsHighestBids(pemOf, bids, m)
  }

  /** The map the first loop of EndAuction has built after the bids `bids`. */
  ghost function PemMaxima(pemOf: Bytes -> string, bids: seq<Bid>): map<string, uint64>
  {
    if |bids| == 0 then map[]
    else
      var m := PemMaxima(pemOf, bids[..|bids| - 1]);
      var bid := bids[|bids| - 1];
      var k := pemOf(bid.buyer);
      if k !in m || bid.bidPrice > m[k] then m[k := bid.bidPrice] else m
  }

  /**
   * The first loop of EndAuction: stops at the first hidden bid, otherwise
   * keeps for each buyer (keyed by PEM) the highest price seen. Because
   * PEM conversion is injective, grouping by PEM text is grouping by
   * certificate bytes.
   */
  method CollectHighestBids(pemOf: Bytes -> string, ghost derOf: string -> Option<Bytes>, bids: seq<Bid>)
    returns (allRevealed: bool, buyerToBid: map<string, uint64>)
    requires IsCodec(pemOf, derOf)
    ensures allRevealed <==> forall j :: 0 <= j < |bids| ==> !bids[j].IsHidden()
    ensures allRevealed ==> IsPemMaxima(pemOf, bids, buyerToBid)
  {
    buyerToBid := map[];
    var i := 0;
    while i < |bids|
      invariant 0 <= i <= |bids|
      invariant forall j :: 0 <= j < i ==> !bids[j].IsHidden()
      invariant buyerToBid == PemMaxima(pemOf, bids[..i])
    {
      var bid := bids[i];
      if bid.IsHidden() {
        return false, buyerToBid;
      }
      var buyerCertPem := pemOf(bid.buyer);
      PemMaximaNext(pemOf, bids, i);
      if buyerCertPem !in buyerToBid || bid.bidPrice > buyerToBid[buyerCertPem] {
        buyerToBid := buyerToBid[buyerCertPem := bid.bidPrice];
      }
      i := i + 1;
    }
    assert bids[..i] == bids;
    PemMaximaIsPemMaxima(pemOf, derOf, bids);
    allRevealed := true;
  }

  /** The map after one more bid, in terms of the map before it. */
  lemma PemMaximaNext(pemOf: Bytes -> string, bids: seq<Bid>, i: int)
    requires 0 <= i < |bids|
    ensures var m, k := PemMaxima(pemOf, bids[..i]), pemOf(bids[i].buyer);
      PemMaxima(pemOf, bids[..i + 1]) == if k !in m || bids[i].bidPrice > m[k] then m[k := bids[i].bidPrice] else m
  {
    assert bids[..i + 1][..i] == bids[..i];
  }

  /** Once every bid is revealed, the map of the first loop holds exactly the highest bids. */
  lemma {:induction false} PemMaximaIsPemMaxima(pemOf: Bytes -> string, derOf: string -> Option<Bytes>, bids: seq<Bid>)
    requires IsCodec(pemOf, derOf)
    requires forall j :: 0 <= j < |bids| ==> !bids[j].IsHidden()
    ensures IsPemMaxima(pemOf, bids, PemMaxima(pemOf, bids))
  {
    if |bids| > 0 {
      var prev := bids[..|bids| - 1];
      PemMaximaIsPemMaxima(pemOf, derOf, prev);
      MaximaStep(pemOf, derOf, bids, PemMaxima(pemOf, prev), PemMaxima(pemOf, bids));
    }
  }

  /** One step of the first loop of EndAuction keeps IsPemMaxima. */
  lemma MaximaStep(pemOf: Bytes -> string, derOf: string -> Option<Bytes>, bids: seq<Bid>,
                   m: map<string, uint64>, m': map<string, uint64>)
    requires IsCodec(pemOf, derOf)
    requires |bids| > 0
    requires IsPemMaxima(pemOf, bids[..|bids| - 1], m)
    requires var k := pemOf(bids[|bids| - 1].buyer);
      m' == if k !in m || bids[|bids| - 1].bidPrice > m[k] then m[k := bids[|bids| - 1].bidPrice] else m
    ensures IsPemMaxima(pemOf, bids, m')
  {
    PriorHighest(pemOf, derOf, bids[..|bids| - 1], m, bids[|bids| - 1].buyer);
    KeysStep(pemOf, bids, m, m');
    ValuesStep(pemOf, derOf, bids, m, m');
  }

  /** What the map holds under a buyer's PEM text: their highest bid, or nothing when they did not bid. */
  lemma PriorHighest(pemOf: Bytes -> string, derOf: string -> Option<Bytes>, bids: seq<Bid>,
                     m: map<string, uint64>, buyer: Bytes)
    requires IsCodec(pemOf, derOf)
    requires IsPemMaxima(pemOf, bids, m)
    ensures var k := pemOf(buyer);
      && (k in m ==> buyer in Bidders(bids) && m[k] == HighestBidOf(bids, buyer))
      && (k !in m ==> buyer !in Bidders(bids) && HighestBidOf(bids, buyer) == 0)
  {
    var k := pemOf(buyer);
    if k in m {
      var j :| 0 <= j < |bids| && pemOf(bids[j].buyer) == k;
      CodecInjective(pemOf, derOf, bids[j].buyer, buyer);
    } else {
      HighestBidIsABid(bids, buyer);
    }
  }

  lemma KeysStep(pemOf: Bytes -> string, bids: seq<Bid>, m: map<string, uint64>, m': map<string, uint64>)
    requires |bids| > 0
    requires KeysArePems(pemOf, bids[..|bids| - 1], m)
    requires m'.Keys == m.Keys + {pemOf(bids[|bids| - 1].buyer)}
    ensures KeysArePems(pemOf, bids, m')
  {
    var prev := bids[..|bids| - 1];
    forall k | k in m' ensures exists j :: 0 <= j < |bids| && pemOf(bids[j].buyer) == k {
      if k in m {
        var j :| 0 <= j < |prev| && pemOf(prev[j].buyer) == k;
        assert bids[j] == prev[j];
      } else {
        assert pemOf(bids[|bids| - 1].buyer) == k;
      }
    }
  }

  /** The update of the first loop at the last bid, given what the map held before it. */
  ghost predicate UpdatedAtLast(pemOf: Bytes -> string, bids: seq<Bid>, m: map<string, uint64>, m': map<string, uint64>)
    requires |bids| > 0
  {
    var prev, bid := bids[..|bids| - 1], bids[|bids| - 1];
    var k := pemOf(bid.buyer);
    && (k in m ==> m[k] == HighestBidOf(prev, bid.buyer))
    && (k !in m ==> HighestBidOf(prev, bid.buyer) == 0)
    && m' == if k !in m || bid.bidPrice > m[k] then m[k := bid.bidPrice] else m
  }

  lemma ValuesStep(pemOf: Bytes -> string, derOf: string -> Option<Bytes>, bids: seq<Bid>,
                   m: map<string, uint64>, m': map<string, uint64>)
    requires IsCodec(pemOf, derOf)
    requires |bids| > 0
    requires HoldsHighestBids(pemOf, bids[..|bids| - 1], m)
    requires UpdatedAtLast(pemOf, bids, m, m')
    ensures HoldsHighestBids(pemOf, bids, m')
  {
    var prev := bids[..|bids| - 1];
    forall j | 0 <= j < |bids|
      ensures var pem := pemOf(bids[j].buyer);
        pem in m' && m'[pem] == HighestBidOf(bids, bids[j].buyer)
    {
      if j < |prev| {
        assert prev[j] == bids[j];
      }
      ValuesStepAt(pemOf, derOf, bids, m, m', j);
    }
  }

  /** The step of ValuesStep at the bid `j`, given what the map held for its buyer before. */
  lemma ValuesStepAt(pemOf: Bytes -> string, derOf: string -> Option<Bytes>, bids: seq<Bid>,
                     m: map<string, uint64>, m': map<string, uint64>, j: int)
    requires IsCodec(pemOf, derOf)
    requires 0 <= j < |bids|
    requires UpdatedAtLast(pemOf, bids, m, m')
    requires j < |bids| - 1 ==>
      var pem := pemOf(bids[j].buyer);
      pem in m && m[pem] == HighestBidOf(bids[..|bids| - 1], bids[j].buyer)
    ensures var pem := pemOf(bids[j].buyer);
      pem in m' && m'[pem] == HighestBidOf(bids, bids[j].buyer)
  {
    var c, last := bids[j].buyer, bids[|bids| - 1].buyer;
    if c != last {
      CodecInjective(pemOf, derOf, c, last);
    }
  }

  /** The bidders of a non-empty sequence: those before the last bid, and the last buyer. */
  lemma BiddersLast(bids: seq<Bid>)
    requires |bids| > 0
    ensures Bidders(bids) == Bidders(bids[..|bids| - 1]) + {bids[|bids| - 1].buyer}
  {
    var prev := bids[..|bids| - 1];
    forall b | b in Bidders(bids) ensures b in Bidders(prev) + {bids[|bids| - 1].buyer} {
      var j :| 0 <= j < |bids| && bids[j].buyer == b;
      if j < |prev| { assert prev[j] == bids[j]; }
    }
    forall b | b in Bidders(prev) ensures b in Bidders(bids) {
      var j :| 0 <= j < |prev| && prev[j].buyer == b;
      assert bids[j] == prev[j];
    }
    assert bids[|bids| - 1].buyer in Bidders(bids);
  }

  /** Each entry of `s` is a key of `m` in `done`, as DER bytes, with the price `m` holds. */
  ghost predicate EntriesAreKeys(pemOf: Bytes -> string, m: map<string, uint64>, done: set<string>, s: seq<Standing>)
  {
    forall i :: 0 <= i < |s| ==>
      var k := pemOf(s[i].buyer);
      k in done && k in m && s[i].bidPrice == m[k]
  }

  /** Each key in `done` has an entry in `s`. */
  ghost predicate CoversKeys(pemOf: Bytes -> string, done: set<string>, s: seq<Standing>)
  {
    forall k :: k in done ==> exists i :: 0 <= i < |s| && pemOf(s[i].buyer) == k
  }

  /** `s` lists the keys of `m` in `done`, each as DER bytes with the price `m` holds, once each. */
  ghost predicate ListsKeys(pemOf: Bytes -> string, m: map<string, uint64>, done: set<string>, s: seq<Standing>)
  {
    EntriesAreKeys(pemOf, m, done, s) && CoversKeys(pemOf, done, s) && DistinctBuyers(s)
  }

  /** Every key of `m` is the PEM text of some certificate. */
  ghost predicate PemKeyed(pemOf: Bytes -> string, m: map<string, uint64>)
  {
    forall k :: k in m ==> exists der :: pemOf(der) == k
  }

  lemma MaximaArePemKeyed(pemOf: Bytes -> string, bids: seq<Bid>, m: map<string, uint64>)
    requires KeysArePems(pemOf, bids, m)
    ensures PemKeyed(pemOf, m)
  {
    forall k | k in m ensures exists der :: pemOf(der) == k {
      var j :| 0 <= j < |bids| && pemOf(bids[j].buyer) == k;
    }
  }

  /**
   * The second loop of EndAuction: turns the map into a slice of
   * (price, DER certificate) pairs. Go visits the keys in an unspecified
   * order; the model picks any key not visited yet. The conversion back to
   * DER cannot fail, since every key is the PEM text of a certificate.
   */
  method PairsOf(ghost pemOf: Bytes -> string, derOf: string -> Option<Bytes>, buyerToBid: map<string, uint64>)
    returns (pairs: seq<Standing>)
    requires IsCodec(pemOf, derOf)
    requires PemKeyed(pemOf, buyerToBid)
    ensures ListsKeys(pemOf, buyerToBid, buyerToBid.Keys, pairs)
  {
    pairs := [];
    var rest := buyerToBid.Keys;
    while rest != {}
      invariant rest <= buyerToBid.Keys
      invariant ListsKeys(pemOf, buyerToBid, buyerToBid.Keys - rest, pairs)
      decreases rest
    {
      var buyer :| buyer in rest;
      var buyerCertDer := derOf(buyer);
      ghost var der :| pemOf(der) == buyer;
      assert buyerCertDer == Some(der);
      PairsStep(pemOf, buyerToBid, rest, pairs, buyer, der);
      pairs := pairs + [Standing(buyerToBid[buyer], buyerCertDer.value)];
      rest := rest - {buyer};
    }
    assert buyerToBid.Keys - rest == buyerToBid.Keys;
  }

  /** Visiting one more key extends the listing by that key's entry. */
  lemma PairsStep(pemOf: Bytes -> string, m: map<string, uint64>, rest: set<string>, s: seq<Standing>,
                  k: string, der: Bytes)
    requires rest <= m.Keys && k in rest && pemOf(der) == k
    requires ListsKeys(pemOf, m, m.Keys - rest, s)
    ensures ListsKeys(pemOf, m, m.Keys - (rest - {k}), s + [Standing(m[k], der)])
  {
    var done := m.Keys - rest;
    assert m.Keys - (rest - {k}) == done + {k};
    var e := Standing(m[k], der);
    EntriesStep(pemOf, m, done, s, k, e);
    CoversStep(pemOf, done, s, k, e);
    DistinctStep(pemOf, done, s, k, e);
  }

  lemma EntriesStep(pemOf: Bytes -> string, m: map<string, uint64>, done: set<string>, s: seq<Standing>,
                    k: string, e: Standing)
    requires EntriesAreKeys(pemOf, m, done, s)
    requires k in m && pemOf(e.buyer) == k && e.bidPrice == m[k]
    ensures EntriesAreKeys(pemOf, m, done + {k}, s + [e])
  {
    var s' := s + [e];
    forall i | 0 <= i < |s'|
      ensures var k' := pemOf(s'[i].buyer); k' in done + {k} && k' in m && s'[i].bidPrice == m[k']
    {
      if i < |s| { assert s'[i] == s[i]; }
    }
  }

  lemma CoversStep(pemOf: Bytes -> string, done: set<string>, s: seq<Standing>, k: string, e: Standing)
    requires CoversKeys(pemOf, done, s)
    requires pemOf(e.buyer) == k
    ensures CoversKeys(pemOf, done + {k}, s + [e])
  {
    var s' := s + [e];
    forall k' | k' in done + {k}
      ensures exists i :: 0 <= i < |s'| && pemOf(s'[i].buyer) == k'
    {
      if k' == k {
        assert s'[|s|] == e;
      } else {
        var i :| 0 <= i < |s| && pemOf(s[i].buyer) == k';
        assert s'[i] == s[i];
      }
    }
  }

  lemma DistinctStep(pemOf: Bytes -> string, done: set<string>, s: seq<Standing>, k: string, e: Standing)
    requires forall i :: 0 <= i < |s| ==> pemOf(s[i].buyer) in done
    requires DistinctBuyers(s)
    requires k !in done && pemOf(e.buyer) == k
    ensures DistinctBuyers(s + [e])
  {
    var s' := s + [e];
    forall i, j | 0 <= i < j < |s'| ensures s'[i].buyer != s'[j].buyer {
      assert s'[i] == s[i];
      if j < |s| { assert s'[j] == s[j]; }
    }
  }

  /** Listing every key of the PEM-keyed maxima lists every bidder. */
  lemma PairsListBidders(pemOf: Bytes -> string, derOf: string -> Option<Bytes>, bids: seq<Bid>,
                         m: map<string, uint64>, s: seq<Standing>)
    requires IsCodec(pemOf, derOf)
    requires IsPemMaxima(pemOf, bids, m)
    requires ListsKeys(pemOf, m, m.Keys, s)
    ensures ListsBidders(bids, s)
  {
    forall i | 0 <= i < |s|
      ensures s[i].buyer in Bidders(bids) && s[i].bidPrice == HighestBidOf(bids, s[i].buyer)
    {
      PriorHighest(pemOf, derOf, bids, m, s[i].buyer);
    }
    forall b | b in Bidders(bids) ensures exists i :: 0 <= i < |s| && s[i].buyer == b {
      var j :| 0 <= j < |bids| && bids[j].buyer == b;
      var k := pemOf(b);
      assert k in m.Keys;
      var i :| 0 <= i < |s| && pemOf(s[i].buyer) == k;
      CodecInjective(pemOf, derOf, s[i].buyer, b);
    }
  }

  /** `x` put into the descending sequence `s`, after the entries of at least its price. */
  function InsertByPrice(x: Standing, s: seq<Standing>): (r: seq<Standing>)
    requires Descending(s)
    ensures Descending(r)
    ensures multiset(r) == multiset(s) + multiset{x}
    ensures |r| > 0 && (r[0] == x || (|s| > 0 && r[0] == s[0]))
    decreases |s|
  {
    if |s| == 0 then [x]
    else if x.bidPrice > s[0].bidPrice then
      DescendingCons(x, s);
      [x] + s
    else
      DescendingTail(s);
      var tail := InsertByPrice(x, s[1..]);
      assert s == [s[0]] + s[1..];
      DescendingCons(s[0], tail);
      [s[0]] + tail
  }

  /** An entry of at least the first price in front of a descending sequence keeps it descending. */
  lemma DescendingCons(x: Standing, s: seq<Standing>)
    requires Descending(s)
    requires |s| > 0 ==> x.bidPrice >= s[0].bidPrice
    ensures Descending([x] + s)
  {
    var r := [x] + s;
    forall i, j | 0 <= i < j < |r| ensures r[i].bidPrice >= r[j].bidPrice {
      assert r[j] == s[j - 1];
      if i > 0 { assert r[i] == s[i - 1]; }
    }
  }

  lemma DescendingTail(s: seq<Standing>)
    requires Descending(s) && |s| > 0
    ensures Descending(s[1..])
  {
    forall i, j | 0 <= i < j < |s| - 1 ensures s[1..][i].bidPrice >= s[1..][j].bidPrice {
      assert s[1..][i] == s[i + 1] && s[1..][j] == s[j + 1];
    }
  }

  /**
   * `sort.Slice` with "greater price first": the entries of `s` in
   * descending order of price. Go leaves the order among equal prices
   * unspecified; this is one of the orders it may produce.
   */
  function SortByPrice(s: seq<Standing>): (r: seq<Standing>)
    ensures Descending(r)
    ensures multiset(r) == multiset(s)
    decreases |s|
  {
    if |s| == 0 then []
    else
      assert s == [s[0]] + s[1..];
      InsertByPrice(s[0], SortByPrice(s[1..]))
  }

  /** A sequence with distinct buyers holds each entry at most once. */
  lemma {:induction false} DistinctOnce(s: seq<Standing>, x: Standing)
    requires DistinctBuyers(s)
    ensures multiset(s)[x] <= 1
    decreases |s|
  {
    if |s| > 0 {
      assert s == [s[0]] + s[1..];
      assert DistinctBuyers(s[1..]) by {
        forall i, j | 0 <= i < j < |s| - 1 ensures s[1..][i].buyer != s[1..][j].buyer {
          assert s[1..][i] == s[i + 1] && s[1..][j] == s[j + 1];
        }
      }
      DistinctOnce(s[1..], x);
      if s[0] == x && x in s[1..] {
        assert false;
      }
    }
  }

  /** An entry at two positions is counted at least twice. */
  lemma TwiceCounted(s: seq<Standing>, i: int, j: int)
    requires 0 <= i < j < |s| && s[i] == s[j]
    ensures multiset(s)[s[i]] >= 2
  {
    assert s == s[..j] + s[j..];
    assert s[i] == s[..j][i];
    assert s[j] == s[j..][0];
  }

  /** Reordering a listing of the bidders gives a listing of the bidders. */
  lemma ListsBiddersReordered(bids: seq<Bid>, s: seq<Standing>, r: seq<Standing>)
    requires ListsBidders(bids, s)
    requires multiset(r) == multiset(s)
    ensures ListsBidders(bids, r)
  {
    forall i | 0 <= i < |r|
      ensures r[i].buyer in Bidders(bids) && r[i].bidPrice == HighestBidOf(bids, r[i].buyer)
    {
      assert r[i] in multiset(s);
    }
    forall b | b in Bidders(bids) ensures exists i :: 0 <= i < |r| && r[i].buyer == b {
      var p :| 0 <= p < |s| && s[p].buyer == b;
      assert s[p] in multiset(r);
    }
    forall i, j | 0 <= i < j < |r| ensures r[i].buyer != r[j].buyer {
      assert r[i] in multiset(s) && r[j] in multiset(s);
      if r[i].buyer == r[j].buyer {
        TwiceCounted(r, i, j);
        DistinctOnce(s, r[i]);
      }
    }
  }

  /**
   * The second loop's slice, sorted by descending price, is a ranking; it
   * is empty exactly when there are no bids.
   */
  method RankBidders(bids: seq<Bid>) returns (ranking: Option<seq<Standing>>)
    ensures ranking.None? <==> exists j :: 0 <= j < |bids| && bids[j].IsHidden()
    ensures ranking.Some? ==> IsRanking(bids, ranking.value)
  {
    PemIsCodec();
    var allRevealed, buyerToBid := CollectHighestBids(Utils.CertDerToPem, Utils.CertPemToDer, bids);
    if !allRevealed {
      return None;
    }
    MaximaArePemKeyed(Utils.CertDerToPem, bids, buyerToBid);
    var pairs := PairsOf(Utils.CertDerToPem, Utils.CertPemToDer, buyerToBid);
    PairsListBidders(Utils.CertDerToPem, Utils.CertPemToDer, bids, buyerToBid, pairs);
    var sorted := SortByPrice(pairs);
    ListsBiddersReordered(bids, pairs, sorted);
    return Some(sorted);
  }

  /** A ranking is empty exactly when there are no bids. */
  lemma RankingEmpty(bids: seq<Bid>, s: seq<Standing>)
    requires IsRanking(bids, s)
    ensures |s| == 0 <==> |bids| == 0
  {
    if |bids| > 0 {
      assert bids[0].buyer in Bidders(bids);
    }
    if |s| > 0 {
      assert s[0].buyer in Bidders(bids);
    }
  }

  /** The first entry of a ranking carries the top price. */
  lemma RankingHeadIsTop(bids: seq<Bid>, s: seq<Standing>)
    requires IsRanking(bids, s) && |s| > 0
    ensures |bids| > 0
    ensures s[0].bidPrice == TopPrice(bids)
  {
    RankingEmpty(bids, s);
    TopPriceIsSomeBiddersHighest(bids);
    var b :| b in TopBidders(bids);
    var p :| 0 <= p < |s| && s[p].buyer == b;
    assert s[0].bidPrice >= s[p].bidPrice;
  }

  /** A ranked buyer is a top bidder exactly when their price is the first entry's. */
  lemma RankingTopBidders(bids: seq<Bid>, s: seq<Standing>, i: int)
    requires IsRanking(bids, s) && 0 <= i < |s|
    ensures s[i].buyer in TopBidders(bids) <==> s[i].bidPrice == s[0].bidPrice
  {
    RankingHeadIsTop(bids, s);
  }

  /**
   * The candidates the code counts at the front of a ranking are exactly
   * the buyers tied at the top price.
   */
  lemma CandidatesAreTopBidders(bids: seq<Bid>, s: seq<Standing>, n: int)
    requires IsRanking(bids, s) && 1 <= n <= |s|
    requires forall i :: 0 <= i < n ==> s[i].bidPrice >= s[0].bidPrice
    requires n == |s| || s[n].bidPrice < s[0].bidPrice
    ensures (set i | 0 <= i < n :: s[i].buyer) == TopBidders(bids)
  {
    forall b | b in TopBidders(bids) ensures b in (set i | 0 <= i < n :: s[i].buyer) {
      var p :| 0 <= p < |s| && s[p].buyer == b;
      RankingTopBidders(bids, s, p);
    }
    forall i | 0 <= i < n ensures s[i].buyer in TopBidders(bids) {
      RankingTopBidders(bids, s, i);
    }
  }

  /** When the second entry is cheaper than the first, no later entry has the first one's price. */
  lemma HeadAloneAtTop(s: seq<Standing>)
    requires Descending(s) && |s| > 1 && s[1].bidPrice < s[0].bidPrice
    ensures forall p :: 0 < p < |s| ==> s[p].bidPrice < s[0].bidPrice
  {
  }

  /** The hammer price the code reads off a ranking is the second price. */
  lemma RankingSecondPrice(bids: seq<Bid>, s: seq<Standing>)
    requires IsRanking(bids, s) && |s| > 0
    ensures IsSecondPrice(bids, if |s| > 1 then s[1].bidPrice else s[0].bidPrice)
  {
    RankingHeadIsTop(bids, s);
    RankingTopBidders(bids, s, 0);
    if |s| == 1 {
      forall b | b in Bidders(bids) ensures b in TopBidders(bids) {
        var p :| 0 <= p < |s| && s[p].buyer == b;
      }
      assert Bidders(bids) == TopBidders(bids);
    } else if s[1].bidPrice == s[0].bidPrice {
      RankingTopBidders(bids, s, 1);
      assert TieAtTop(bids);
    } else {
      RankingTopBidders(bids, s, 1);
      HeadAloneAtTop(s);
      forall b | b in TopBidders(bids) ensures b == s[0].buyer {
        var p :| 0 <= p < |s| && s[p].buyer == b;
        RankingTopBidders(bids, s, p);
      }
      assert !TieAtTop(bids);
      assert s[1].buyer in Bidders(bids) - TopBidders(bids);
      forall b | b in Bidders(bids) - TopBidders(bids) ensures HighestBidOf(bids, b) <= s[1].bidPrice {
        var p :| 0 <= p < |s| && s[p].buyer == b;
        if p > 1 {
          assert s[p].bidPrice <= s[1].bidPrice;
        }
      }
    }
  }

  /**
   * The third loop of EndAuction: counts the entries at the front of the
   * ranking whose price is not below the first entry's, stopping at the
   * first one that is.
   */
  method CountCandidates(ranking: seq<Standing>) returns (numberOfCandidates: nat)
    requires |ranking| > 0
    ensures 1 <= numberOfCandidates <= |ranking|
    ensures forall i :: 0 <= i < numberOfCandidates ==> ranking[i].bidPrice >= ranking[0].bidPrice
    ensures numberOfCandidates == |ranking| || ranking[numberOfCandidates].bidPrice < ranking[0].bidPrice
  {
    var highestPrice := ranking[0].bidPrice;
    numberOfCandidates := 0;
    var i := 0;
    while i < |ranking|
      invariant 0 <= i <= |ranking| && numberOfCandidates == i
      invariant forall k :: 0 <= k < i ==> ranking[k].bidPrice >= highestPrice
    {
      if ranking[i].bidPrice < highestPrice {
        break;
      }
      numberOfCandidates := numberOfCandidates + 1;
      i := i + 1;
    }
  }

  /**
   * The rest of EndAuction once the ranking exists: no entry means no
   * winner and hammer price 0; otherwise the hammer price is the second
   * entry's price (the first's when there is only one), and the winner is
   * the candidate at the index `pick` draws below their number, `pick`
   * standing for crypto/rand's uniform draw. The candidates are exactly the
   * buyers tied at the top, so the draw is among them and no one else.
   */
  method SettleRanking(ghost bids: seq<Bid>, ranking: seq<Standing>, pick: nat -> nat)
    returns (winner: Option<Bytes>, hammerPrice: uint64, numberOfCandidates: nat)
    requires IsRanking(bids, ranking)
    requires forall n: nat :: 0 < n ==> pick(n) < n
    ensures IsSettlement(bids, winner, hammerPrice)
    ensures |bids| > 0 ==>
      && 1 <= numberOfCandidates <= |ranking|
      && (set i | 0 <= i < numberOfCandidates :: ranking[i].buyer) == TopBidders(bids)
      && winner == Some(ranking[pick(numberOfCandidates)].buyer)
  {
    RankingEmpty(bids, ranking);
    if |ranking| == 0 {
      return None, 0, 0;
    }
    var highestPrice := ranking[0].bidPrice;
    hammerPrice := highestPrice;
    if |ranking| > 1 {
      hammerPrice := ranking[1].bidPrice;
    }
    numberOfCandidates := CountCandidates(ranking);
    var winningCandidate := pick(numberOfCandidates);
    winner := Some(ranking[winningCandidate].buyer);
    CandidatesAreTopBidders(bids, ranking, numberOfCandidates);
    RankingSecondPrice(bids, ranking);
    assert ranking[winningCandidate].buyer in TopBidders(bids);
  }
}

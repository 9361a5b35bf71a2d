/** The copy-trading engine of polymarket-trader (internal/core/copy_engine.go):
    the traders whose entries are copied, the positions opened by copying, and the
    risk checks run on every market price update. Each method runs under the
    engine's mutex in the source; here each is one atomic step. */
module CopyEngine {

  /** `models.Position`, without its timestamps. */
  datatype Position = Position(
    id: nat,
    traderAddress: string,
    marketId: string,
    outcomeIndex: int,
    entryPrice: real,
    currentPrice: real,
    size: real,
    value: real,
    stopLossPrice: real,
    takeProfitPrice: real,
    isOpen: bool)

  /** `models.CopyConfig`. */
  datatype CopyConfig = CopyConfig(
    id: nat,
    traderAddress: string,
    enabled: bool,
    fixedSize: real,
    maxPosition: real,
    stopLossPct: real,
    takeProfitPct: real)

  /** `polymarket.OrderRequest`. */
  datatype OrderRequest = OrderRequest(tokenId: string, price: real, side: string, size: real, feeRate: int)

  /** `Client.PlaceOrder`: whether the exchange accepted the order (a nil error). */
  type PlaceOrder = OrderRequest -> bool

  /** The engine's three fields as one value. */
  datatype EngineState = EngineState(
    monitored: map<string, CopyConfig>,
    activePositions: map<nat, Position>,
    posIdCounter: nat)

  /** What every operation keeps: the counter is positive, every position is
      stored under its own ID, and every ID is below the counter, so the counter
      is always a fresh key. */
  predicate Valid(s: EngineState) {
    && s.posIdCounter >= 1
    && forall id :: id in s.activePositions ==>
         s.activePositions[id].id == id && id < s.posIdCounter
  }

  /** `NewCopyEngine`. */
  function Initial(): (s: EngineState)
    ensures Valid(s)
    ensures s.monitored == map[] && s.activePositions == map[] && s.posIdCounter == 1
  {
    EngineState(map[], map[], 1)
  }

  /** `AddTrader`: the config is stored under its trader address. */
  function AddTraderStep(s: EngineState, config: CopyConfig): EngineState {
    s.(monitored := s.monitored[config.traderAddress := config])
  }

  /** The new config replaces any earlier one for the same address; every other
      trader, the positions and the counter are unchanged. */
  lemma {:induction false} AddTraderSpec(s: EngineState, config: CopyConfig)
    ensures var s' := AddTraderStep(s, config);
      && config.traderAddress in s'.monitored
      && s'.monitored[config.traderAddress] == config
      && s'.monitored.Keys == s.monitored.Keys + {config.traderAddress}
      && (forall a :: a in s.monitored && a != config.traderAddress ==>
            s'.monitored[a] == s.monitored[a])
      && s'.activePositions == s.activePositions && s'.posIdCounter == s.posIdCounter
      && (Valid(s) ==> Valid(s'))
  {
  }

  /** The IDs of the positions that are open. */
  function OpenIds(s: EngineState): set<nat> {
    set id | id in s.activePositions && s.activePositions[id].isOpen
  }

  /** `closePosition`: only `IsOpen` is cleared. */
  function Close(p: Position): (q: Position)
    ensures !q.isOpen
    ensures q.(isOpen := p.isOpen) == p
  {
    p.(isOpen := false)
  }

  /** One iteration of `UpdateMarketPrice`'s loop on one position: an open position
      in the market takes the new price and value, then is closed when its stop
      loss or its take profit is hit. */
  function PriceUpdated(p: Position, marketId: string, newPrice: real): Position {
    if !p.isOpen || p.marketId != marketId then p
    else
      var q := p.(currentPrice := newPrice, value := p.size * newPrice);
      var q1 := if q.stopLossPrice > 0.0 && newPrice <= q.stopLossPrice then Close(q) else q;
      if q1.takeProfitPrice > 0.0 && newPrice >= q1.takeProfitPrice then Close(q1) else q1
  }

  /** The stop loss is hit. A zero or negative stop-loss price never is. */
  predicate StopLossHit(p: Position, newPrice: real) {
    p.stopLossPrice > 0.0 && newPrice <= p.stopLossPrice
  }

  /** The take profit is hit. A zero or negative take-profit price never is. */
  predicate TakeProfitHit(p: Position, newPrice: real) {
    p.takeProfitPrice > 0.0 && newPrice >= p.takeProfitPrice
  }

  /** A closed position or one in another market is left as it is. An open one in
      the market gets `CurrentPrice = newPrice` and `Value = Size * newPrice`, is
      closed exactly when a threshold is hit, and keeps every other field. */
  lemma {:induction false} PriceUpdatedSpec(p: Position, marketId: string, newPrice: real)
    ensures var q := PriceUpdated(p, marketId, newPrice);
      && (!p.isOpen || p.marketId != marketId ==> q == p)
      && (p.isOpen && p.marketId == marketId ==>
            && q.currentPrice == newPrice && q.value == p.size * newPrice
            && (q.isOpen <==> !StopLossHit(p, newPrice) && !TakeProfitHit(p, newPrice))
            && q == p.(currentPrice := newPrice, value := p.size * newPrice, isOpen := q.isOpen))
  {
  }

  /** A price update never reopens a position and keeps its ID. */
  lemma {:induction false} PriceUpdatedMonotone(p: Position, marketId: string, newPrice: real)
    ensures PriceUpdated(p, marketId, newPrice).isOpen ==> p.isOpen
    ensures PriceUpdated(p, marketId, newPrice).id == p.id
  {
  }

  /** A position `closePosition` has closed is final: no later price update, in any
      market, changes it again. */
  lemma {:induction false} ClosedIsFinal(p: Position, marketId: string, newPrice: real)
    ensures PriceUpdated(Close(p), marketId, newPrice) == Close(p)
    ensures Close(Close(p)) == Close(p)
  {
  }

  /** Reporting the same price twice is the same as reporting it once. */
  lemma {:induction false} PriceUpdatedIdempotent(p: Position, marketId: string, newPrice: real)
    ensures PriceUpdated(PriceUpdated(p, marketId, newPrice), marketId, newPrice) ==
      PriceUpdated(p, marketId, newPrice)
  {
  }

  /** `UpdateMarketPrice`: every stored position is updated on its own, so the
      order in which the map is visited does not matter. */
  function UpdateMarketPriceStep(s: EngineState, marketId: string, newPrice: real): EngineState {
    s.(activePositions := map id | id in s.activePositions ::
         PriceUpdated(s.activePositions[id], marketId, newPrice))
  }

  /** A price update keeps the engine valid, keeps every key, and closes
      positions but opens none. */
  lemma {:induction false} UpdateMarketPriceSpec(s: EngineState, marketId: string, newPrice: real)
    ensures var s' := UpdateMarketPriceStep(s, marketId, newPrice);
      && s'.activePositions.Keys == s.activePositions.Keys
      && s'.monitored == s.monitored && s'.posIdCounter == s.posIdCounter
      && OpenIds(s') <= OpenIds(s)
      && (Valid(s) ==> Valid(s'))
  {
    var s' := UpdateMarketPriceStep(s, marketId, newPrice);
    forall id | id in OpenIds(s') ensures id in OpenIds(s) {
      PriceUpdatedMonotone(s.activePositions[id], marketId, newPrice);
    }
  }

  /** `entry * (1 - StopLossPct)` when the percentage is positive, otherwise 0. */
  function StopLossPrice(entry: real, pct: real): real {
    if pct > 0.0 then entry * (1.0 - pct) else 0.0
  }

  /** `entry * (1 + TakeProfitPct)` when the percentage is positive, otherwise 0. */
  function TakeProfitPrice(entry: real, pct: real): real {
    if pct > 0.0 then entry * (1.0 + pct) else 0.0
  }

  /** For a positive entry price and a percentage in (0, 1), the stop loss lies
      strictly between 0 and the entry, and any positive take-profit percentage
      puts the take profit above the entry; a percentage of 0 or less disables the
      threshold, which then never triggers. */
  lemma {:induction false} RiskPricesBracketEntry(entry: real, slPct: real, tpPct: real)
    requires entry > 0.0
    ensures 0.0 < slPct < 1.0 ==> 0.0 < StopLossPrice(entry, slPct) < entry
    ensures tpPct > 0.0 ==> TakeProfitPrice(entry, tpPct) > entry
    ensures slPct <= 0.0 ==> StopLossPrice(entry, slPct) == 0.0
    ensures tpPct <= 0.0 ==> TakeProfitPrice(entry, tpPct) == 0.0
  {
    if 0.0 < slPct < 1.0 {
      assert entry * (1.0 - slPct) == entry - entry * slPct;
      assert entry * slPct > 0.0;
    }
    if tpPct > 0.0 {
      assert entry * (1.0 + tpPct) == entry + entry * tpPct;
      assert entry * tpPct > 0.0;
    }
  }

  /** Whether `executeCopy` goes as far as placing an order. */
  predicate CopyGate(s: EngineState, signal: Position) {
    && signal.traderAddress in s.monitored
    && s.monitored[signal.traderAddress].enabled
    && s.monitored[signal.traderAddress].fixedSize > 0.0
  }

  /** The order `executeCopy` places: a buy of the configured size at the
      signal's entry price, with fee rate 0. */
  function CopyOrder(signal: Position, size: real): OrderRequest {
    OrderRequest(signal.marketId, signal.entryPrice, "BUY", size, 0)
  }

  /** The position `executeCopy` stores; the outcome index and value are left 0. */
  function CopiedPosition(id: nat, signal: Position, config: CopyConfig): Position {
    Position(id, signal.traderAddress, signal.marketId, 0, signal.entryPrice,
             signal.entryPrice, config.fixedSize, 0.0,
             StopLossPrice(signal.entryPrice, config.stopLossPct),
             TakeProfitPrice(signal.entryPrice, config.takeProfitPct), true)
  }

  /** `executeCopy(signal)`. */
  function ExecuteCopyStep(s: EngineState, signal: Position, placeOrder: PlaceOrder): EngineState {
    if !CopyGate(s, signal) then s
    else
      var config := s.monitored[signal.traderAddress];
      if !placeOrder(CopyOrder(signal, config.fixedSize)) then s
      else
        s.(activePositions := s.activePositions[s.posIdCounter :=
             CopiedPosition(s.posIdCounter, signal, config)],
           posIdCounter := s.posIdCounter + 1)
  }

  /** Nothing changes for a trader who is not monitored, is disabled or has a
      non-positive fixed size, nor when the order fails; the exchange is not
      called at all in the first three cases. */
  lemma {:induction false} ExecuteCopyRejected(s: EngineState, signal: Position,
                                               p1: PlaceOrder, p2: PlaceOrder)
    ensures !CopyGate(s, signal) ==>
      ExecuteCopyStep(s, signal, p1) == s && ExecuteCopyStep(s, signal, p1) == ExecuteCopyStep(s, signal, p2)
    ensures (CopyGate(s, signal) &&
             !p1(CopyOrder(signal, s.monitored[signal.traderAddress].fixedSize))) ==>
      ExecuteCopyStep(s, signal, p1) == s
  {
  }

  /** On an accepted order a new open position with the old counter as ID is
      stored under that key, which was free, with the risk prices of the trader's
      config; the counter grows by one and nothing else changes. */
  lemma {:induction false} ExecuteCopyStores(s: EngineState, signal: Position, placeOrder: PlaceOrder)
    requires Valid(s)
    requires CopyGate(s, signal)
    requires placeOrder(CopyOrder(signal, s.monitored[signal.traderAddress].fixedSize))
    ensures var s', id, config := ExecuteCopyStep(s, signal, placeOrder), s.posIdCounter,
                                  s.monitored[signal.traderAddress];
      && id !in s.activePositions
      && s'.activePositions.Keys == s.activePositions.Keys + {id}
      && (forall k :: k in s.activePositions ==> s'.activePositions[k] == s.activePositions[k])
      && s'.activePositions[id].id == id && s'.activePositions[id].isOpen
      && s'.activePositions[id].traderAddress == signal.traderAddress
      && s'.activePositions[id].marketId == signal.marketId
      && s'.activePositions[id].currentPrice == signal.entryPrice
      && s'.activePositions[id].outcomeIndex == 0 && s'.activePositions[id].value == 0.0
      && s'.activePositions[id].size == config.fixedSize
      && s'.activePositions[id].entryPrice == signal.entryPrice
      && s'.activePositions[id].stopLossPrice == StopLossPrice(signal.entryPrice, config.stopLossPct)
      && s'.activePositions[id].takeProfitPrice == TakeProfitPrice(signal.entryPrice, config.takeProfitPct)
      && s'.posIdCounter == id + 1 && s'.monitored == s.monitored
      && OpenIds(s') == OpenIds(s) + {id}
  {
  }

  /** Copying keeps the engine valid. */
  lemma {:induction false} ExecuteCopyValid(s: EngineState, signal: Position, placeOrder: PlaceOrder)
    requires Valid(s)
    ensures Valid(ExecuteCopyStep(s, signal, placeOrder))
  {
  }

  /** The engine object. */
  class Engine {
    var monitored: map<string, CopyConfig>
    var activePositions: map<nat, Position>
    var posIdCounter: nat

    function State(): EngineState
      reads this
    {
      EngineState(monitored, activePositions, posIdCounter)
    }

    /** `NewCopyEngine`. */
    constructor ()
      ensures State() == Initial()
    {
      monitored := map[];
      activePositions := map[];
      posIdCounter := 1;
    }

    /** `AddTrader`. */
    method AddTrader(config: CopyConfig)
      modifies this
      ensures State() == AddTraderStep(old(State()), config)
    {
      monitored := monitored[config.traderAddress := config];
    }

    /** `GetActivePositions`: a copy of every open position, in the order the map
        is visited. `keys` records the key each copy was read from: every open
        position is copied exactly once, and nothing else is. In a valid engine
        the key is the position's own ID. */
    method GetActivePositions() returns (positions: seq<Position>, ghost keys: seq<nat>)
      ensures forall i :: 0 <= i < |positions| ==>
        positions[i].isOpen && positions[i] in activePositions.Values
      ensures forall id :: id in OpenIds(State()) ==> activePositions[id] in positions
      ensures Valid(State()) ==>
        forall i, j :: 0 <= i < j < |positions| ==> positions[i].id != positions[j].id
      ensures |keys| == |positions|
      ensures forall i :: 0 <= i < |keys| ==>
        keys[i] in activePositions && activePositions[keys[i]] == positions[i] && positions[i].isOpen
      ensures forall i, j :: 0 <= i < j < |keys| ==> keys[i] != keys[j]
      ensures forall id :: id in OpenIds(State()) ==> exists i :: 0 <= i < |keys| && keys[i] == id
      ensures Valid(State()) ==> forall i :: 0 <= i < |keys| ==> positions[i].id == keys[i]
    {
      positions := [];
      keys := [];
      var remaining := activePositions.Keys;
      while remaining != {}
        invariant remaining <= activePositions.Keys
        invariant |keys| == |positions|
        invariant forall i :: 0 <= i < |keys| ==>
          keys[i] in activePositions.Keys - remaining
          && activePositions[keys[i]] == positions[i] && positions[i].isOpen
        invariant forall i, j :: 0 <= i < j < |keys| ==> keys[i] != keys[j]
        invariant forall id :: id in activePositions.Keys - remaining && activePositions[id].isOpen ==>
          exists i :: 0 <= i < |keys| && keys[i] == id
        decreases |remaining|
      {
        var id :| id in remaining;
        var p := activePositions[id];
        ghost var before := keys;
        if p.isOpen {
          positions := positions + [p];
          keys := keys + [id];
          assert keys[|keys| - 1] == id;
          assert forall i :: 0 <= i < |before| ==> keys[i] == before[i];
        }
        remaining := remaining - {id};
      }
    }

    /** `UpdateMarketPrice`: each stored position in turn, in whatever order the
        map is visited, is updated in place. */
    method UpdateMarketPrice(marketId: string, newPrice: real)
      modifies this
      ensures State() == UpdateMarketPriceStep(old(State()), marketId, newPrice)
    {
      var remaining := activePositions.Keys;
      ghost var before := activePositions;
      while remaining != {}
        invariant remaining <= before.Keys
        invariant activePositions.Keys == before.Keys
        invariant forall id :: id in before ==>
          activePositions[id] == if id in remaining then before[id]
                                 else PriceUpdated(before[id], marketId, newPrice)
        invariant monitored == old(monitored) && posIdCounter == old(posIdCounter)
        decreases |remaining|
      {
        var id :| id in remaining;
        var pos := CheckPosition(activePositions[id], marketId, newPrice);
        activePositions := activePositions[id := pos];
        remaining := remaining - {id};
      }
      assert activePositions == map id | id in before :: PriceUpdated(before[id], marketId, newPrice);
    }

    /** The body of `UpdateMarketPrice`'s loop on one position: skip it unless it
        is open and in the market, refresh its price and value, then run the stop
        loss and the take profit checks in that order. */
    static method CheckPosition(pos: Position, marketId: string, newPrice: real)
      returns (updated: Position)
      ensures updated == PriceUpdated(pos, marketId, newPrice)
    {
      updated := pos;
      if !updated.isOpen || updated.marketId != marketId {
        return;
      }
      updated := updated.(currentPrice := newPrice, value := updated.size * newPrice);
      if updated.stopLossPrice > 0.0 && newPrice <= updated.stopLossPrice {
        updated := ClosePosition(updated);
      }
      if updated.takeProfitPrice > 0.0 && newPrice >= updated.takeProfitPrice {
        updated := ClosePosition(updated);
      }
    }

    /** `closePosition`. */
    static method ClosePosition(pos: Position) returns (closed: Position)
      ensures closed == Close(pos)
    {
      closed := pos.(isOpen := false);
    }

    /** `executeCopy(signal)`; `placeOrder` stands for the exchange. */
    method ExecuteCopy(signal: Position, placeOrder: PlaceOrder)
      modifies this
      ensures State() == ExecuteCopyStep(old(State()), signal, placeOrder)
    {
      if signal.traderAddress !in monitored || !monitored[signal.traderAddress].enabled {
        return;
      }
      var config := monitored[signal.traderAddress];
      var size := config.fixedSize;
      if size <= 0.0 {
        return;
      }
      var slPrice := 0.0;
      var tpPrice := 0.0;
      if config.stopLossPct > 0.0 {
        slPrice := signal.entryPrice * (1.0 - config.stopLossPct);
      }
      if config.takeProfitPct > 0.0 {
        tpPrice := signal.entryPrice * (1.0 + config.takeProfitPct);
      }
      var order := OrderRequest(signal.marketId, signal.entryPrice, "BUY", size, 0);
      var accepted := placeOrder(order);
      if !accepted {
        return;
      }
      var newPos := Position(posIdCounter, signal.traderAddress, signal.marketId, 0,
                             signal.entryPrice, signal.entryPrice, size, 0.0,
                             slPrice, tpPrice, true);
      assert newPos == CopiedPosition(posIdCounter, signal, config);
      activePositions := activePositions[posIdCounter := newPos];
      posIdCounter := posIdCounter + 1;
    }
  }
}

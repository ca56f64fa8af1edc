/** The heartbeat check of the axelmon monitor: where the latest complete
    heartbeat window starts, how a block is searched for the broadcaster's
    heartbeat, and the indexer-based variant that counts stale entries. */
module Heartbeats {
  import opened Wrappers
  import opened Decimal
  import opened Addresses
  import Server
  import Metrics

  // ---------------------------------------------------------------------------
  // Window arithmetic (findHeartBeatHeight)
  // ---------------------------------------------------------------------------

  /** Heartbeats are expected once per window of this many blocks. */
  const WindowLength: int := 50

  /** Go's `%` on integers: the remainder takes the sign of the dividend. */
  function GoRem(a: int, b: int): (r: int)
    requires b > 0
    ensures a >= 0 ==> 0 <= r < b
    ensures a < 0 ==> -b < r <= 0
    ensures a - r == b * (if a >= 0 then a / b else -((-a) / b))
  {
    if a >= 0 then a % b else -((-a) % b)
  }

  predicate IsBoundary(h: int) {
    h % WindowLength == 0
  }

  /** The start of the most recent window that is complete at `height`. */
  function WindowStart(height: int): (r: int)
    ensures IsBoundary(r)
    ensures height >= 0 ==> height - WindowLength <= r < height
  {
    var rem := GoRem(height, WindowLength);
    if rem != 0 then height - rem else height - WindowLength
  }

  /** No window boundary lies strictly between the result and the height:
      the result is the latest boundary that is fully in the past. */
  lemma WindowStartIsLatestBoundary(height: int, m: int)
    requires height >= 0
    requires IsBoundary(m) && m < height
    ensures m <= WindowStart(height)
  {
  }

  /** findHeartBeatHeight: the height lookup's error is passed on unchanged;
      otherwise the window start of the height. */
  function FindHeartBeatHeight(latest: Result<int>): (r: Result<int>)
    ensures r.Err? <==> latest.Err?
    ensures latest.Err? ==> r.error == latest.error
    ensures latest.Ok? && latest.value >= 0 ==>
              IsBoundary(r.value) && latest.value - WindowLength <= r.value < latest.value
  {
    match latest
    case Err(e) => Err(e)
    case Ok(height) => Ok(WindowStart(height))
  }

  // ---------------------------------------------------------------------------
  // Messages and the heartbeat matcher
  // ---------------------------------------------------------------------------

  const RefundTypeUrl: string := "/axelar.reward.v1beta1.RefundMsgRequest"
  const HeartbeatTypeUrl: string := "/axelar.tss.v1beta1.HeartBeatRequest"
  /** The relayer address whose refund requests are accepted as well. */
  const FallbackSender: string := "axelar17xpfvakm2amg962yls6f84z3kell8c5l5h4gqu"

  /** A protobuf `Any`: a type URL and the serialized message. */
  datatype Any = Any(typeUrl: string, value: seq<Byte>)

  /** A transaction, reduced to the messages of its body. */
  datatype Tx = Tx(messages: seq<Any>)

  /** A decoded `RefundMsgRequest`. */
  datatype RefundMsg = RefundMsg(sender: Address, innerMessage: Any)

  /** What the search needs from the outside world: the block fetcher
      (`GetTxs`), the protobuf decoder of refund requests, the bech32
      rendering of an address (`AccAddress.String`) and the broadcaster. */
  datatype ScanContext = ScanContext(
    getTxs: int -> Result<seq<Tx>>,
    decode: seq<Byte> -> Result<RefundMsg>,
    render: Address -> string,
    broadcaster: Address)

  /** The outcome of inspecting one message: go on, a heartbeat, or a
      decoding failure that ends the search. */
  datatype Verdict = Skip | Hit | Fail(err: Error)

  predicate SenderMatches(ctx: ScanContext, sender: Address) {
    sender == ctx.broadcaster || ctx.render(sender) == FallbackSender
  }

  /** A decoded refund request that is the broadcaster's heartbeat. */
  predicate IsHeartbeatClaim(ctx: ScanContext, m: RefundMsg) {
    SenderMatches(ctx, m.sender) && m.innerMessage.typeUrl == HeartbeatTypeUrl
  }

  /** The three-way dispatch on one message: outer type URL, then decoding,
      then sender and inner type URL. */
  function ClassifyMessage(ctx: ScanContext, msg: Any): Verdict {
    if msg.typeUrl != RefundTypeUrl then Skip
    else
      match ctx.decode(msg.value)
      case Err(e) => Fail(e)
      case Ok(m) => if IsHeartbeatClaim(ctx, m) then Hit else Skip
  }

  /** The decoder is consulted only for refund requests, and each of the three
      outcomes has exactly one cause. */
  lemma ClassifyMessageDispatch(ctx: ScanContext, msg: Any)
    ensures msg.typeUrl != RefundTypeUrl ==> ClassifyMessage(ctx, msg) == Skip
    ensures ClassifyMessage(ctx, msg).Fail? <==>
              msg.typeUrl == RefundTypeUrl && ctx.decode(msg.value).Err?
    ensures ClassifyMessage(ctx, msg).Fail? ==>
              ClassifyMessage(ctx, msg).err == ctx.decode(msg.value).error
    ensures ClassifyMessage(ctx, msg) == Hit <==>
              msg.typeUrl == RefundTypeUrl && ctx.decode(msg.value).Ok? &&
              IsHeartbeatClaim(ctx, ctx.decode(msg.value).value)
  {
  }

  /** A refund request from a foreign sender is skipped whatever it wraps,
      and one from the broadcaster that wraps anything but a heartbeat
      request is skipped too. */
  lemma NonHeartbeatRefundsAreSkipped(ctx: ScanContext, msg: Any)
    requires msg.typeUrl == RefundTypeUrl && ctx.decode(msg.value).Ok?
    ensures !SenderMatches(ctx, ctx.decode(msg.value).value.sender) ==>
              ClassifyMessage(ctx, msg) == Skip
    ensures ctx.decode(msg.value).value.innerMessage.typeUrl != HeartbeatTypeUrl ==>
              ClassifyMessage(ctx, msg) == Skip
  {
  }

  /** The fallback relayer's heartbeat is accepted even when it is not the
      configured broadcaster. */
  lemma FallbackSenderAccepted(ctx: ScanContext, msg: Any)
    requires msg.typeUrl == RefundTypeUrl && ctx.decode(msg.value).Ok?
    requires ctx.render(ctx.decode(msg.value).value.sender) == FallbackSender
    requires ctx.decode(msg.value).value.innerMessage.typeUrl == HeartbeatTypeUrl
    ensures ClassifyMessage(ctx, msg) == Hit
  {
  }

  /** The verdict of a message list: that of its first message that is not
      skipped, or `Skip` when there is none. */
  function TxVerdict(ctx: ScanContext, msgs: seq<Any>): Verdict
    decreases |msgs|
  {
    if msgs == [] then Skip
    else
      var v := ClassifyMessage(ctx, msgs[0]);
      if v.Skip? then TxVerdict(ctx, msgs[1..]) else v
  }

  /** The verdict of a block: that of its first transaction that decides. */
  function BlockVerdict(ctx: ScanContext, txs: seq<Tx>): Verdict
    decreases |txs|
  {
    if txs == [] then Skip
    else
      var v := TxVerdict(ctx, txs[0].messages);
      if v.Skip? then BlockVerdict(ctx, txs[1..]) else v
  }

  /** All messages of a block in the order the scan visits them. */
  function AllMessages(txs: seq<Tx>): seq<Any>
    decreases |txs|
  {
    if txs == [] then [] else txs[0].messages + AllMessages(txs[1..])
  }

  predicate AllSkip(ctx: ScanContext, msgs: seq<Any>) {
    forall k :: 0 <= k < |msgs| ==> ClassifyMessage(ctx, msgs[k]) == Skip
  }

  /** Message `k` is the first one that is not skipped. */
  predicate IsFirstDecisive(ctx: ScanContext, msgs: seq<Any>, k: int) {
    && 0 <= k < |msgs|
    && ClassifyMessage(ctx, msgs[k]) != Skip
    && AllSkip(ctx, msgs[..k])
  }

  lemma {:induction false} TxVerdictAppend(ctx: ScanContext, a: seq<Any>, b: seq<Any>)
    ensures TxVerdict(ctx, a + b) ==
              if TxVerdict(ctx, a).Skip? then TxVerdict(ctx, b) else TxVerdict(ctx, a)
    decreases |a|
  {
    if a != [] {
      assert (a + b)[0] == a[0];
      assert (a + b)[1..] == a[1..] + b;
      TxVerdictAppend(ctx, a[1..], b);
    } else {
      assert a + b == b;
    }
  }

  /** Scanning the transactions one by one decides as scanning all their
      messages in a row. */
  lemma {:induction false} BlockVerdictFlattens(ctx: ScanContext, txs: seq<Tx>)
    ensures BlockVerdict(ctx, txs) == TxVerdict(ctx, AllMessages(txs))
    decreases |txs|
  {
    if txs != [] {
      BlockVerdictFlattens(ctx, txs[1..]);
      TxVerdictAppend(ctx, txs[0].messages, AllMessages(txs[1..]));
    }
  }

  /** A message list is skipped exactly when each of its messages is, and
      otherwise decides as its first decisive message. */
  lemma {:induction false} TxVerdictIsFirstDecisive(ctx: ScanContext, msgs: seq<Any>)
    ensures TxVerdict(ctx, msgs) == Skip <==> AllSkip(ctx, msgs)
    ensures forall k :: IsFirstDecisive(ctx, msgs, k) ==>
              TxVerdict(ctx, msgs) == ClassifyMessage(ctx, msgs[k])
    ensures !AllSkip(ctx, msgs) ==> exists k :: IsFirstDecisive(ctx, msgs, k)
    decreases |msgs|
  {
    if msgs != [] {
      var rest := msgs[1..];
      TxVerdictIsFirstDecisive(ctx, rest);
      if ClassifyMessage(ctx, msgs[0]) == Skip {
        forall k | IsFirstDecisive(ctx, msgs, k)
          ensures TxVerdict(ctx, msgs) == ClassifyMessage(ctx, msgs[k])
        {
          assert k > 0 by { assert msgs[..k][0] == msgs[0]; }
          assert IsFirstDecisive(ctx, rest, k - 1) by {
            var pre, full := rest[..k - 1], msgs[..k];
            forall j | 0 <= j < |pre| ensures ClassifyMessage(ctx, pre[j]) == Skip {
              assert pre[j] == full[j + 1];
            }
          }
        }
        if !AllSkip(ctx, msgs) {
          assert !AllSkip(ctx, rest) by {
            var k :| 0 <= k < |msgs| && ClassifyMessage(ctx, msgs[k]) != Skip;
            assert rest[k - 1] == msgs[k];
          }
          var k :| IsFirstDecisive(ctx, rest, k);
          assert IsFirstDecisive(ctx, msgs, k + 1) by {
            var pre, tail := msgs[..k + 1], rest[..k];
            forall j | 0 <= j < |pre| ensures ClassifyMessage(ctx, pre[j]) == Skip {
              if j > 0 { assert pre[j] == tail[j - 1]; }
            }
          }
        }
        if AllSkip(ctx, rest) {
          forall k | 0 <= k < |msgs| ensures ClassifyMessage(ctx, msgs[k]) == Skip {
            if k > 0 { assert msgs[k] == rest[k - 1]; }
          }
        }
      } else {
        assert IsFirstDecisive(ctx, msgs, 0);
        assert forall k :: IsFirstDecisive(ctx, msgs, k) ==> k == 0;
      }
    }
  }

  /** A block is a heartbeat block exactly when, in the scan order, some
      message is the broadcaster's heartbeat and every message before it is
      skipped (in particular, none of them failed to decode). */
  lemma BlockHitIff(ctx: ScanContext, txs: seq<Tx>)
    ensures BlockVerdict(ctx, txs) == Hit <==>
              exists k :: IsFirstDecisive(ctx, AllMessages(txs), k) &&
                          ClassifyMessage(ctx, AllMessages(txs)[k]) == Hit
  {
    BlockVerdictFlattens(ctx, txs);
    TxVerdictIsFirstDecisive(ctx, AllMessages(txs));
  }

  // ---------------------------------------------------------------------------
  // The bounded block search (findHeartbeat)
  // ---------------------------------------------------------------------------

  /** `(found, err)` as findHeartbeat returns them. */
  datatype Outcome = Outcome(found: bool, err: Option<Error>)

  /** What fetching and matching height `h` decides; `None` means go on to
      the next height. */
  function StepOutcome(ctx: ScanContext, h: int): Option<Outcome> {
    match ctx.getTxs(h)
    case Err(e) => Some(Outcome(true, Some(e)))
    case Ok(txs) =>
      match BlockVerdict(ctx, txs)
      case Skip => None
      case Hit => Some(Outcome(true, None))
      case Fail(e) => Some(Outcome(false, Some(e)))
  }

  predicate Quiet(ctx: ScanContext, h: int) {
    StepOutcome(ctx, h).None?
  }

  /** The search from `height` with `tryCnt` attempts left. */
  function Search(ctx: ScanContext, height: int, tryCnt: int): Outcome
    decreases tryCnt
  {
    if tryCnt <= 0 then Outcome(false, None)
    else
      match StepOutcome(ctx, height)
      case None => Search(ctx, height + 1, tryCnt - 1)
      case Some(o) => o
  }

  /** The heights the search fetches, in order. */
  function Probes(ctx: ScanContext, height: int, tryCnt: int): seq<int>
    decreases tryCnt
  {
    if tryCnt <= 0 then []
    else [height] + (if Quiet(ctx, height) then Probes(ctx, height + 1, tryCnt - 1) else [])
  }

  /** The consecutive heights `lo, lo+1, …, hi-1`. */
  function Range(lo: int, hi: int): (s: seq<int>)
    ensures |s| == if lo <= hi then hi - lo else 0
    ensures forall i :: 0 <= i < |s| ==> s[i] == lo + i
  {
    seq(if lo <= hi then hi - lo else 0, i => lo + i)
  }

  predicate AllQuiet(ctx: ScanContext, height: int, tryCnt: int) {
    forall h :: height <= h < height + tryCnt ==> Quiet(ctx, h)
  }

  /** Height `h` is the first in the search range that decides. */
  predicate IsFirstStop(ctx: ScanContext, height: int, tryCnt: int, h: int) {
    && height <= h < height + tryCnt
    && !Quiet(ctx, h)
    && forall h' :: height <= h' < h ==> Quiet(ctx, h')
  }

  lemma {:induction false} SearchExhausted(ctx: ScanContext, height: int, tryCnt: int)
    requires AllQuiet(ctx, height, tryCnt)
    ensures Search(ctx, height, tryCnt) == Outcome(false, None)
    ensures Probes(ctx, height, tryCnt) == Range(height, height + tryCnt)
    decreases tryCnt
  {
    if tryCnt > 0 {
      assert Quiet(ctx, height);
      SearchExhausted(ctx, height + 1, tryCnt - 1);
      assert Probes(ctx, height, tryCnt) == [height] + Range(height + 1, height + tryCnt);
    }
  }

  lemma {:induction false} SearchStops(ctx: ScanContext, height: int, tryCnt: int, h: int)
    requires IsFirstStop(ctx, height, tryCnt, h)
    ensures Search(ctx, height, tryCnt) == StepOutcome(ctx, h).value
    ensures Probes(ctx, height, tryCnt) == Range(height, h + 1)
    decreases tryCnt
  {
    if h > height {
      assert Quiet(ctx, height);
      SearchStops(ctx, height + 1, tryCnt - 1, h);
      assert Probes(ctx, height, tryCnt) == [height] + Range(height + 1, h + 1);
    }
  }

  lemma {:induction false} FirstStopExists(ctx: ScanContext, height: int, tryCnt: int)
    requires !AllQuiet(ctx, height, tryCnt)
    ensures exists h :: IsFirstStop(ctx, height, tryCnt, h)
    decreases tryCnt
  {
    if Quiet(ctx, height) {
      assert !AllQuiet(ctx, height + 1, tryCnt - 1);
      FirstStopExists(ctx, height + 1, tryCnt - 1);
      var h :| IsFirstStop(ctx, height + 1, tryCnt - 1, h);
      assert IsFirstStop(ctx, height, tryCnt, h);
    } else {
      assert IsFirstStop(ctx, height, tryCnt, height);
    }
  }

  /** The search fetches the consecutive heights from the window start and
      at most `tryCnt` of them. */
  lemma ProbesAreConsecutive(ctx: ScanContext, height: int, tryCnt: int)
    ensures |Probes(ctx, height, tryCnt)| <= if tryCnt <= 0 then 0 else tryCnt
    ensures Probes(ctx, height, tryCnt) == Range(height, height + |Probes(ctx, height, tryCnt)|)
  {
    if AllQuiet(ctx, height, tryCnt) {
      SearchExhausted(ctx, height, tryCnt);
    } else {
      FirstStopExists(ctx, height, tryCnt);
      var h :| IsFirstStop(ctx, height, tryCnt, h);
      SearchStops(ctx, height, tryCnt, h);
    }
  }

  /** `(false, nil)` is returned exactly when every one of the `tryCnt`
      heights was fetched and held no heartbeat and no malformed refund
      request; then all `tryCnt` heights were fetched. */
  lemma NotFoundIffExhausted(ctx: ScanContext, height: int, tryCnt: int)
    ensures Search(ctx, height, tryCnt) == Outcome(false, None) <==> AllQuiet(ctx, height, tryCnt)
    ensures AllQuiet(ctx, height, tryCnt) ==>
              Probes(ctx, height, tryCnt) == Range(height, height + tryCnt)
  {
    if AllQuiet(ctx, height, tryCnt) {
      SearchExhausted(ctx, height, tryCnt);
    } else {
      FirstStopExists(ctx, height, tryCnt);
      var h :| IsFirstStop(ctx, height, tryCnt, h);
      SearchStops(ctx, height, tryCnt, h);
    }
  }

  /** A fetched block that holds the broadcaster's heartbeat. */
  predicate HeartbeatAt(ctx: ScanContext, h: int) {
    ctx.getTxs(h).Ok? && BlockVerdict(ctx, ctx.getTxs(h).value) == Hit
  }

  /** `(true, nil)` is returned exactly when some height in range holds a
      heartbeat and every earlier height was fetched and quiet; no height
      after that one is fetched. */
  lemma FoundIffHeartbeat(ctx: ScanContext, height: int, tryCnt: int)
    ensures Search(ctx, height, tryCnt) == Outcome(true, None) <==>
              exists h :: IsFirstStop(ctx, height, tryCnt, h) && HeartbeatAt(ctx, h)
    ensures forall h :: IsFirstStop(ctx, height, tryCnt, h) && HeartbeatAt(ctx, h) ==>
              Probes(ctx, height, tryCnt) == Range(height, h + 1)
  {
    if AllQuiet(ctx, height, tryCnt) {
      SearchExhausted(ctx, height, tryCnt);
    } else {
      FirstStopExists(ctx, height, tryCnt);
      var h :| IsFirstStop(ctx, height, tryCnt, h);
      SearchStops(ctx, height, tryCnt, h);
    }
  }

  /** A `GetTxs` error ends the search at once as `(true, err)`: this
      happens exactly when the fetch of the first deciding height fails, and
      it is the last height fetched. */
  lemma FetchErrorAborts(ctx: ScanContext, height: int, tryCnt: int, e: Error)
    ensures Search(ctx, height, tryCnt) == Outcome(true, Some(e)) <==>
              exists h :: IsFirstStop(ctx, height, tryCnt, h) && ctx.getTxs(h) == Err(e)
    ensures forall h :: IsFirstStop(ctx, height, tryCnt, h) && ctx.getTxs(h).Err? ==>
              Probes(ctx, height, tryCnt) == Range(height, h + 1)
  {
    if AllQuiet(ctx, height, tryCnt) {
      SearchExhausted(ctx, height, tryCnt);
    } else {
      FirstStopExists(ctx, height, tryCnt);
      var h :| IsFirstStop(ctx, height, tryCnt, h);
      SearchStops(ctx, height, tryCnt, h);
    }
  }

  /** A refund request that fails to decode ends the search as
      `(false, err)`, exactly when it is the first decisive message of the
      first deciding height. */
  lemma DecodeErrorAborts(ctx: ScanContext, height: int, tryCnt: int, e: Error)
    ensures Search(ctx, height, tryCnt) == Outcome(false, Some(e)) <==>
              exists h :: IsFirstStop(ctx, height, tryCnt, h) && ctx.getTxs(h).Ok? &&
                          BlockVerdict(ctx, ctx.getTxs(h).value) == Fail(e)
  {
    if AllQuiet(ctx, height, tryCnt) {
      SearchExhausted(ctx, height, tryCnt);
    } else {
      FirstStopExists(ctx, height, tryCnt);
      var h :| IsFirstStop(ctx, height, tryCnt, h);
      SearchStops(ctx, height, tryCnt, h);
    }
  }

  /** The inner loop of findHeartbeat over one transaction's messages: stops
      at the first heartbeat or at the first refund request that fails to
      decode. */
  method ScanTx(ctx: ScanContext, msgs: seq<Any>) returns (v: Verdict)
    ensures v == TxVerdict(ctx, msgs)
  {
    var k := 0;
    while k < |msgs|
      invariant 0 <= k <= |msgs|
      invariant TxVerdict(ctx, msgs) == TxVerdict(ctx, msgs[k..])
    {
      var msg := msgs[k];
      assert msgs[k..][0] == msg && msgs[k..][1..] == msgs[k + 1..];
      if msg.typeUrl == RefundTypeUrl {
        var decoded := ctx.decode(msg.value);
        if decoded.Err? {
          return Fail(decoded.error);
        }
        var refund := decoded.value;
        if refund.sender == ctx.broadcaster || ctx.render(refund.sender) == FallbackSender {
          if refund.innerMessage.typeUrl == HeartbeatTypeUrl {
            return Hit;
          }
        }
      }
      k := k + 1;
    }
    return Skip;
  }

  /** The loop of findHeartbeat over the transactions of one block. */
  method ScanBlock(ctx: ScanContext, txs: seq<Tx>) returns (v: Verdict)
    ensures v == BlockVerdict(ctx, txs)
  {
    var i := 0;
    while i < |txs|
      invariant 0 <= i <= |txs|
      invariant BlockVerdict(ctx, txs) == BlockVerdict(ctx, txs[i..])
    {
      assert txs[i..][0] == txs[i] && txs[i..][1..] == txs[i + 1..];
      v := ScanTx(ctx, txs[i].messages);
      if !v.Skip? {
        return;
      }
      i := i + 1;
    }
    return Skip;
  }

  /** findHeartbeat: scans up to `tryCnt` consecutive heights from
      `heartbeatHeight`; `probed` records the heights passed to `GetTxs`. */
  method FindHeartbeat(ctx: ScanContext, heartbeatHeight: int, tryCnt: int)
    returns (found: bool, err: Option<Error>, ghost probed: seq<int>)
    ensures Outcome(found, err) == Search(ctx, heartbeatHeight, tryCnt)
    ensures probed == Probes(ctx, heartbeatHeight, tryCnt)
  {
    var height := heartbeatHeight;
    var j := 0;
    probed := [];
    while j < tryCnt
      invariant 0 <= j <= if tryCnt < 0 then 0 else tryCnt
      invariant height == heartbeatHeight + j
      invariant AllQuiet(ctx, heartbeatHeight, j)
      invariant probed == Range(heartbeatHeight, height)
    {
      probed := probed + [height];
      assert probed == Range(heartbeatHeight, height + 1);
      var fetched := ctx.getTxs(height);
      if fetched.Err? {
        SearchStops(ctx, heartbeatHeight, tryCnt, height);
        found, err := true, Some(fetched.error);
        return;
      }
      var v := ScanBlock(ctx, fetched.value);
      if !v.Skip? {
        SearchStops(ctx, heartbeatHeight, tryCnt, height);
        if v.Fail? {
          found, err := false, Some(v.err);
        } else {
          found, err := true, None;
        }
        return;
      }
      height := height + 1;
      j := j + 1;
    }
    SearchExhausted(ctx, heartbeatHeight, tryCnt);
    if tryCnt < 0 {
      assert Range(heartbeatHeight, heartbeatHeight + tryCnt) == [];
    }
    found, err := false, None;
  }

  // ---------------------------------------------------------------------------
  // The indexer-based check (checkHeartbeats)
  // ---------------------------------------------------------------------------

  /** One entry of the indexer's response; `timestamp` is the result of
      parsing its RFC 3339 text, in nanoseconds since the epoch. */
  datatype HeartbeatEntry = HeartbeatEntry(height: int, txHash: string, timestamp: Option<int>)

  /** `5 * time.Minute`, in nanoseconds. */
  const FiveMinutes: int := 5 * 60 * 1000000000

  /** An entry is missed when its timestamp does not parse or when it is
      strictly more than five minutes older than `now`. */
  predicate IsMiss(e: HeartbeatEntry, now: int) {
    e.timestamp.None? || now - e.timestamp.value > FiveMinutes
  }

  function MissCount(data: seq<HeartbeatEntry>, now: int): nat
    decreases |data|
  {
    if data == [] then 0
    else MissCount(data[..|data| - 1], now) + (if IsMiss(data[|data| - 1], now) then 1 else 0)
  }

  /** The positions of the missed entries. */
  function MissIndices(data: seq<HeartbeatEntry>, now: int): set<int> {
    set i | 0 <= i < |data| && IsMiss(data[i], now)
  }

  /** The miss count is the number of missed entries, so it never exceeds the
      number of entries. */
  lemma {:induction false} MissCountCountsMisses(data: seq<HeartbeatEntry>, now: int)
    ensures MissCount(data, now) == |MissIndices(data, now)|
    ensures MissCount(data, now) <= |data|
    decreases |data|
  {
    if data == [] {
      assert MissIndices(data, now) == {};
    } else {
      var n := |data| - 1;
      var init := data[..n];
      MissCountCountsMisses(init, now);
      var last := if IsMiss(data[n], now) then {n} else {};
      assert MissIndices(data, now) == MissIndices(init, now) + last by {
        forall i | i in MissIndices(data, now) ensures i in MissIndices(init, now) + last {
          if i < n { assert init[i] == data[i]; }
        }
        forall i | i in MissIndices(init, now) ensures i in MissIndices(data, now) {
          assert init[i] == data[i];
        }
      }
      assert n !in MissIndices(init, now);
    }
  }

  /** No entry is missed exactly when the count is zero. */
  lemma {:induction false} MissCountZeroIff(data: seq<HeartbeatEntry>, now: int)
    ensures MissCount(data, now) == 0 <==> forall i :: 0 <= i < |data| ==> !IsMiss(data[i], now)
  {
    MissCountCountsMisses(data, now);
    if MissCount(data, now) == 0 {
      assert MissIndices(data, now) == {};
      forall i | 0 <= i < |data| ensures !IsMiss(data[i], now) {
        assert i !in MissIndices(data, now);
      }
    } else {
      var i :| i in MissIndices(data, now);
    }
  }

  /** An entry exactly five minutes old is not a miss. */
  lemma FiveMinutesOldIsNotMissed(e: HeartbeatEntry, now: int)
    requires e.timestamp == Some(now - FiveMinutes)
    ensures !IsMiss(e, now)
  {
  }

  /** The text stored as `Heartbeat.Missed`: "<missed> / <checked>". */
  function FormatMissed(missed: nat, total: nat): string {
    NatToString(missed) + " / " + NatToString(total)
  }

  /** The index of the first space of `s`, or `|s|` when there is none. */
  function FirstSpace(s: string): (i: nat)
    ensures i <= |s|
    ensures forall j :: 0 <= j < i ==> s[j] != ' '
    ensures i < |s| ==> s[i] == ' '
  {
    if s == [] then 0 else if s[0] == ' ' then 0 else 1 + FirstSpace(s[1..])
  }

  /** Reads a `Heartbeat.Missed` text back into its two counts. */
  function ParseMissed(s: string): Option<(nat, nat)> {
    var i := FirstSpace(s);
    if i + 3 <= |s| && s[i..i + 3] == " / " then
      match (ParseNat(s[..i]), ParseNat(s[i + 3..]))
      case (Some(m), Some(n)) => Some((m, n))
      case _ => None
    else None
  }

  /** The stored text determines both counts. */
  lemma MissedRoundTrip(missed: nat, total: nat)
    ensures ParseMissed(FormatMissed(missed, total)) == Some((missed, total))
  {
    var a, b := NatToString(missed), NatToString(total);
    var s := FormatMissed(missed, total);
    var i := FirstSpace(s);
    assert forall j :: 0 <= j < |a| ==> s[j] == a[j] && s[j] != ' ';
    assert s[|a|] == ' ';
    assert i == |a|;
    assert s[..i] == a && s[i..i + 3] == " / " && s[i + 3..] == b;
    NatToStringRoundTrip(missed);
    NatToStringRoundTrip(total);
  }

  /** checkHeartbeats, from the decoded indexer response on: counts the
      missed entries, publishes "<missed> / <checked>" and the status, and
      adds to the missed and success counters. A failed request, read or
      decode returns its error and changes nothing. */
  method CheckHeartbeats(state: Server.GlobalState, registry: Metrics.Registry,
                         response: Result<seq<HeartbeatEntry>>, now: int, missThreshold: int)
    returns (err: Option<Error>)
    modifies state, registry
    ensures state.maintainers == old(state.maintainers)
    ensures state.maintainersStatus == old(state.maintainersStatus)
    ensures registry.maintainersGauge == old(registry.maintainersGauge)
    ensures response.Err? ==> err == Some(response.error)
    ensures response.Err? ==>
              && state.heartbeatMissed == old(state.heartbeatMissed)
              && state.heartbeatStatus == old(state.heartbeatStatus)
              && registry.heartbeatsMissed == old(registry.heartbeatsMissed)
              && registry.heartbeatsSuccess == old(registry.heartbeatsSuccess)
    ensures response.Ok? ==>
              var data := response.value;
              var missCnt := MissCount(data, now);
              && err == None
              && state.heartbeatMissed == FormatMissed(missCnt, |data|)
              && state.heartbeatStatus == (missCnt < missThreshold)
              && registry.heartbeatsMissed == old(registry.heartbeatsMissed) + missCnt
              && registry.heartbeatsSuccess == old(registry.heartbeatsSuccess) + (|data| - missCnt)
  {
    if response.Err? {
      return Some(response.error);
    }
    var data := response.value;
    var missCnt := 0;
    for i := 0 to |data|
      invariant missCnt == MissCount(data[..i], now)
    {
      assert data[..i + 1][..i] == data[..i];
      var hb := data[i];
      if hb.timestamp.None? {
        missCnt := missCnt + 1;
        continue;
      }
      if now - hb.timestamp.value > FiveMinutes {
        missCnt := missCnt + 1;
      }
    }
    assert data[..|data|] == data;
    MissCountCountsMisses(data, now);

    state.heartbeatMissed := FormatMissed(missCnt, |data|);
    registry.heartbeatsMissed := registry.heartbeatsMissed + missCnt;
    registry.heartbeatsSuccess := registry.heartbeatsSuccess + (|data| - missCnt);
    if missCnt >= missThreshold {
      state.heartbeatStatus := false;
    } else {
      state.heartbeatStatus := true;
    }
    err := None;
  }
}

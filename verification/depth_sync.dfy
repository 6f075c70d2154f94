/**
 * The Binance diff-depth mirror (python/olob/crypto/binance.py): the LocalBook
 * that applies [price, qty] changes, and the message loop that discards stale
 * diffs, buffers them until one covers lastUpdateId + 1, replays the snapshot
 * and the buffer, applies diffs while in sync and resynchronises on a gap.
 *
 * Prices and quantities are the values float() produced; the freshly fetched
 * REST snapshot is an input of the step, and the gzip JSONL writers are the
 * logs of the state.
 */
module DepthSync {
  import opened Types
  import opened Ascii

  /** One [price, qty] pair of a diff or snapshot, after float() parsing. */
  datatype Change = Change(px: real, qty: real)

  /** One side of the mirror: price to quantity. */
  type Ladder = map<real, real>

  /** The quantity stored at p, if any. */
  function Get(m: Ladder, p: real): Option<real> {
    if p in m then Some(m[p]) else None
  }

  /** One change: a zero quantity deletes the price (absent or not), any other upserts it. */
  function Put(m: Ladder, c: Change): Ladder {
    if c.qty == 0.0 then m - {c.px} else m[c.px := c.qty]
  }

  /** The changes applied one after the other, in list order. */
  function ApplyChanges(m: Ladder, cs: seq<Change>): Ladder {
    if cs == [] then m else Put(ApplyChanges(m, cs[..|cs| - 1]), cs[|cs| - 1])
  }

  /** The quantity carried by the last change at p, if cs touches p at all. */
  function LastFor(cs: seq<Change>, p: real): (r: Option<real>)
    ensures r.Some? <==> exists i :: 0 <= i < |cs| && cs[i].px == p
  {
    if cs == [] then None
    else if cs[|cs| - 1].px == p then Some(cs[|cs| - 1].qty)
    else LastFor(cs[..|cs| - 1], p)
  }

  /** What a price holds after cs when it held `before`: the last change at p wins. */
  function Resolve(cs: seq<Change>, p: real, before: Option<real>): Option<real> {
    match LastFor(cs, p)
    case Some(q) => if q == 0.0 then None else Some(q)
    case None => before
  }

  /** Last write wins: each price ends as its last change left it, untouched prices keep their quantity. */
  lemma {:induction false} ApplyChangesAt(m: Ladder, cs: seq<Change>, p: real)
    ensures Get(ApplyChanges(m, cs), p) == Resolve(cs, p, Get(m, p))
  {
    if cs != [] {
      ApplyChangesAt(m, cs[..|cs| - 1], p);
    }
  }

  /** Two ladders that hold the same quantity at every price are equal. */
  lemma LadderExt(a: Ladder, b: Ladder)
    requires forall p :: Get(a, p) == Get(b, p)
    ensures a == b
  {
    forall p | p in a
      ensures p in b && a[p] == b[p]
    {
      assert Get(a, p) == Get(b, p);
    }
    forall p | p in b
      ensures p in a
    {
      assert Get(a, p) == Get(b, p);
    }
  }

  /** Applying the same diff twice is applying it once. */
  lemma ApplyChangesIdempotent(m: Ladder, cs: seq<Change>)
    ensures ApplyChanges(ApplyChanges(m, cs), cs) == ApplyChanges(m, cs)
  {
    forall p
      ensures Get(ApplyChanges(ApplyChanges(m, cs), cs), p) == Get(ApplyChanges(m, cs), p)
    {
      ApplyChangesAt(ApplyChanges(m, cs), cs, p);
      ApplyChangesAt(m, cs, p);
    }
    LadderExt(ApplyChanges(ApplyChanges(m, cs), cs), ApplyChanges(m, cs));
  }

  /** Applying a then b is applying their concatenation. */
  lemma {:induction false} ApplyChangesConcat(m: Ladder, a: seq<Change>, b: seq<Change>)
    ensures ApplyChanges(m, a + b) == ApplyChanges(ApplyChanges(m, a), b)
  {
    if b != [] {
      assert (a + b)[..|a + b| - 1] == a + b[..|b| - 1];
      assert (a + b)[|a + b| - 1] == b[|b| - 1];
      ApplyChangesConcat(m, a, b[..|b| - 1]);
    } else {
      assert a + b == a;
    }
  }

  /** No stored level has quantity zero. */
  ghost predicate NoZero(m: Ladder) {
    forall p :: p in m ==> m[p] != 0.0
  }

  lemma {:induction false} ApplyChangesNoZero(m: Ladder, cs: seq<Change>)
    requires NoZero(m)
    ensures NoZero(ApplyChanges(m, cs))
  {
    if cs != [] {
      ApplyChangesNoZero(m, cs[..|cs| - 1]);
    }
  }

  /** LocalBook: the two sides of the mirror and the last applied update id. */
  class LocalBook {
    var bids: Ladder
    var asks: Ladder
    var lastUpdateId: int

    constructor ()
      ensures bids == map[] && asks == map[] && lastUpdateId == 0
    {
      bids := map[];
      asks := map[];
      lastUpdateId := 0;
    }

    /** apply_diff: the bid changes, in order, to bids; then the ask changes to asks. */
    method ApplyDiff(bs: seq<Change>, as_: seq<Change>)
      modifies this
      ensures bids == ApplyChanges(old(bids), bs)
      ensures asks == ApplyChanges(old(asks), as_)
      ensures lastUpdateId == old(lastUpdateId)
    {
      var i := 0;
      while i < |bs|
        invariant 0 <= i <= |bs|
        invariant bids == ApplyChanges(old(bids), bs[..i])
        invariant asks == old(asks) && lastUpdateId == old(lastUpdateId)
      {
        var c := bs[i];
        if c.qty == 0.0 {
          bids := bids - {c.px};
        } else {
          bids := bids[c.px := c.qty];
        }
        assert bs[..i + 1][..i] == bs[..i];
        i := i + 1;
      }
      assert bs[..i] == bs;
      var j := 0;
      while j < |as_|
        invariant 0 <= j <= |as_|
        invariant asks == ApplyChanges(old(asks), as_[..j])
        invariant bids == ApplyChanges(old(bids), bs) && lastUpdateId == old(lastUpdateId)
      {
        var c := as_[j];
        if c.qty == 0.0 {
          asks := asks - {c.px};
        } else {
          asks := asks[c.px := c.qty];
        }
        assert as_[..j + 1][..j] == as_[..j];
        j := j + 1;
      }
      assert as_[..j] == as_;
    }
  }

  /** The payload of a depthUpdate event: its [U, u] id range and the b and a change lists. */
  datatype DepthFrame = DepthFrame(first: int, last: int, bids: seq<Change>, asks: seq<Change>)

  /** A REST depth snapshot. */
  datatype Snapshot = Snapshot(lastUpdateId: int, bids: seq<Change>, asks: seq<Change>)

  /** The `e` field of a combined-stream TEXT message. */
  datatype Event = Depth(frame: DepthFrame) | Trade(payload: string) | Unknown

  /** A websocket message by type. */
  datatype Msg = Text(event: Event) | Closed | Error | OtherType

  datatype Half = BidHalf | AskHalf

  function Part(f: DepthFrame, h: Half): seq<Change> {
    if h == BidHalf then f.bids else f.asks
  }

  /** The h-side changes of the frames, frame by frame in order. */
  function Changes(fs: seq<DepthFrame>, h: Half): seq<Change> {
    if fs == [] then [] else Changes(fs[..|fs| - 1], h) + Part(fs[|fs| - 1], h)
  }

  lemma ChangesPrefix(fs: seq<DepthFrame>, i: nat, h: Half)
    requires i < |fs|
    ensures Changes(fs[..i + 1], h) == Changes(fs[..i], h) + Part(fs[i], h)
  {
    assert fs[..i + 1][..i] == fs[..i];
  }

  /**
   * The consumer's state: the LocalBook, the pending buffer, the synced flag,
   * the current snapshot, and what was written to the depth and trade logs
   * and persisted as snapshots.
   */
  datatype Mirror = Mirror(
    bids: Ladder, asks: Ladder, lastUpdateId: int,
    pending: seq<DepthFrame>, synced: bool, snap: Snapshot,
    depthLog: seq<DepthFrame>, tradeLog: seq<string>, snapLog: seq<Snapshot>)

  /** The state after the initial snapshot was fetched and persisted. */
  function Initial(snap: Snapshot): (st: Mirror)
    ensures Invariant(st) && !st.synced && st.snapLog == [snap]
  {
    Mirror(map[], map[], snap.lastUpdateId, [], false, snap, [], [], [snap])
  }

  /** U <= last_update_id + 1 <= u. */
  predicate Covers(f: DepthFrame, last: int) {
    f.first <= last + 1 <= f.last
  }

  /** The state after one iteration, and whether the loop breaks. */
  datatype Next = Next(st: Mirror, stop: bool)

  /** The buffer is complete: the snapshot, then every pending frame in arrival order. */
  function Synchronize(st: Mirror): Mirror
    requires st.pending != []
  {
    st.(bids := ApplyChanges(ApplyChanges(st.bids, st.snap.bids), Changes(st.pending, BidHalf)),
        asks := ApplyChanges(ApplyChanges(st.asks, st.snap.asks), Changes(st.pending, AskHalf)),
        lastUpdateId := st.pending[|st.pending| - 1].last,
        pending := [], synced := true)
  }

  /** The depthUpdate branch. */
  function OnDepth(st: Mirror, f: DepthFrame, newSnap: Snapshot): Mirror {
    var logged := st.(depthLog := st.depthLog + [f]);
    if f.last <= st.lastUpdateId then logged
    else if !st.synced then
      var buffered := logged.(pending := st.pending + [f]);
      if Covers(f, st.lastUpdateId) then Synchronize(buffered) else buffered
    else if Covers(f, st.lastUpdateId) then
      logged.(bids := ApplyChanges(st.bids, f.bids), asks := ApplyChanges(st.asks, f.asks), lastUpdateId := f.last)
    else
      logged.(synced := false, pending := [], snap := newSnap, lastUpdateId := newSnap.lastUpdateId,
              snapLog := st.snapLog + [newSnap])
  }

  /** One pass of the receive loop; newSnap is what the REST snapshot call would return. */
  function Step(st: Mirror, msg: Msg, newSnap: Snapshot): Next {
    match msg
    case Text(Depth(f)) => Next(OnDepth(st, f, newSnap), false)
    case Text(Trade(p)) => Next(st.(tradeLog := st.tradeLog + [p]), false)
    case Text(Unknown) => Next(st, false)
    case Closed => Next(st, true)
    case Error => Next(st, true)
    case OtherType => Next(st, false)
  }

  /** A received message together with the snapshot a resync at that moment would fetch. */
  datatype Input = Input(msg: Msg, newSnap: Snapshot)

  /** The loop over the messages received before the deadline, up to a CLOSED or ERROR. */
  function Run(st: Mirror, ins: seq<Input>): Mirror
    decreases |ins|
  {
    if ins == [] then st
    else
      var n := Step(st, ins[0].msg, ins[0].newSnap);
      if n.stop then n.st else Run(n.st, ins[1..])
  }

  /** pending is empty in sync; while unsynced every buffered frame is newer than lastUpdateId; no zero levels. */
  ghost predicate Invariant(st: Mirror) {
    (st.synced ==> st.pending == []) &&
    (!st.synced ==> forall i :: 0 <= i < |st.pending| ==> st.pending[i].last > st.lastUpdateId) &&
    NoZero(st.bids) && NoZero(st.asks)
  }

  lemma StepInvariant(st: Mirror, msg: Msg, newSnap: Snapshot)
    requires Invariant(st)
    ensures Invariant(Step(st, msg, newSnap).st)
  {
    if msg.Text? && msg.event.Depth? {
      var f := msg.event.frame;
      if f.last > st.lastUpdateId {
        if !st.synced && Covers(f, st.lastUpdateId) {
          var b := st.(depthLog := st.depthLog + [f], pending := st.pending + [f]);
          ApplyChangesNoZero(st.bids, st.snap.bids);
          ApplyChangesNoZero(st.asks, st.snap.asks);
          ApplyChangesNoZero(ApplyChanges(st.bids, st.snap.bids), Changes(b.pending, BidHalf));
          ApplyChangesNoZero(ApplyChanges(st.asks, st.snap.asks), Changes(b.pending, AskHalf));
        } else if st.synced && Covers(f, st.lastUpdateId) {
          ApplyChangesNoZero(st.bids, f.bids);
          ApplyChangesNoZero(st.asks, f.asks);
        }
      }
    }
  }

  lemma {:induction false} RunInvariant(st: Mirror, ins: seq<Input>)
    requires Invariant(st)
    ensures Invariant(Run(st, ins))
    decreases |ins|
  {
    if ins != [] {
      StepInvariant(st, ins[0].msg, ins[0].newSnap);
      RunInvariant(Step(st, ins[0].msg, ins[0].newSnap).st, ins[1..]);
    }
  }

  /**
   * Every depthUpdate is logged before any sequence check; a trade is only
   * logged; nothing else changes the state; only CLOSED and ERROR stop the loop.
   */
  lemma StepLogs(st: Mirror, msg: Msg, newSnap: Snapshot)
    ensures var n := Step(st, msg, newSnap);
      && (n.stop <==> msg.Closed? || msg.Error?)
      && (msg.Text? && msg.event.Depth? ==>
            n.st.depthLog == st.depthLog + [msg.event.frame] && n.st.tradeLog == st.tradeLog)
      && (msg.Text? && msg.event.Trade? ==> n.st == st.(tradeLog := st.tradeLog + [msg.event.payload]))
      && (!(msg.Text? && (msg.event.Depth? || msg.event.Trade?)) ==> n.st == st)
  {
  }

  /** A diff with u <= lastUpdateId is dropped: only the log grows. */
  lemma StaleDiscarded(st: Mirror, f: DepthFrame, newSnap: Snapshot)
    requires f.last <= st.lastUpdateId
    ensures Step(st, Text(Depth(f)), newSnap) == Next(st.(depthLog := st.depthLog + [f]), false)
  {
  }

  /** While unsynced, a newer diff that does not cover lastUpdateId + 1 is only buffered. */
  lemma BufferedWhileUnsynced(st: Mirror, f: DepthFrame, newSnap: Snapshot)
    requires !st.synced && f.last > st.lastUpdateId && !Covers(f, st.lastUpdateId)
    ensures Step(st, Text(Depth(f)), newSnap).st ==
            st.(depthLog := st.depthLog + [f], pending := st.pending + [f])
  {
  }

  /**
   * While unsynced, the covering diff completes the buffer: every price ends as
   * the buffered diffs left it, else as the snapshot left it, else as before;
   * lastUpdateId becomes that diff's u and the mirror is in sync.
   */
  lemma SyncOnCover(st: Mirror, f: DepthFrame, newSnap: Snapshot, p: real)
    requires !st.synced && f.last > st.lastUpdateId && Covers(f, st.lastUpdateId)
    ensures var s' := Step(st, Text(Depth(f)), newSnap).st;
      && s'.synced && s'.pending == [] && s'.lastUpdateId == f.last
      && s'.snap == st.snap && s'.snapLog == st.snapLog
      && Get(s'.bids, p) == Resolve(Changes(st.pending + [f], BidHalf), p, Resolve(st.snap.bids, p, Get(st.bids, p)))
      && Get(s'.asks, p) == Resolve(Changes(st.pending + [f], AskHalf), p, Resolve(st.snap.asks, p, Get(st.asks, p)))
  {
    var pend := st.pending + [f];
    ApplyChangesAt(st.bids, st.snap.bids, p);
    ApplyChangesAt(ApplyChanges(st.bids, st.snap.bids), Changes(pend, BidHalf), p);
    ApplyChangesAt(st.asks, st.snap.asks, p);
    ApplyChangesAt(ApplyChanges(st.asks, st.snap.asks), Changes(pend, AskHalf), p);
  }

  /** In sync, a covering diff is applied and lastUpdateId strictly rises to its u. */
  lemma AppliedInSync(st: Mirror, f: DepthFrame, newSnap: Snapshot, p: real)
    requires st.synced && f.last > st.lastUpdateId && Covers(f, st.lastUpdateId)
    ensures var s' := Step(st, Text(Depth(f)), newSnap).st;
      && s'.synced && s'.pending == st.pending
      && st.lastUpdateId < s'.lastUpdateId == f.last
      && Get(s'.bids, p) == Resolve(f.bids, p, Get(st.bids, p))
      && Get(s'.asks, p) == Resolve(f.asks, p, Get(st.asks, p))
  {
    ApplyChangesAt(st.bids, f.bids, p);
    ApplyChangesAt(st.asks, f.asks, p);
  }

  /**
   * In sync, a gap drops sync, clears the buffer and takes the newSnap snapshot's
   * lastUpdateId; the book itself is left as it was.
   */
  lemma GapResyncs(st: Mirror, f: DepthFrame, newSnap: Snapshot)
    requires st.synced && f.last > st.lastUpdateId && !Covers(f, st.lastUpdateId)
    ensures var s' := Step(st, Text(Depth(f)), newSnap).st;
      && !s'.synced && s'.pending == [] && s'.snap == newSnap
      && s'.lastUpdateId == newSnap.lastUpdateId && s'.snapLog == st.snapLog + [newSnap]
      && s'.bids == st.bids && s'.asks == st.asks
  {
  }

  /**
   * A step that ends in sync never lowers lastUpdateId, and one that leaves it
   * unchanged leaves the book unchanged.
   */
  lemma SyncedMonotone(st: Mirror, msg: Msg, newSnap: Snapshot)
    ensures var s' := Step(st, msg, newSnap).st;
      s'.synced ==> st.lastUpdateId <= s'.lastUpdateId &&
                    (s'.lastUpdateId == st.lastUpdateId ==> s'.bids == st.bids && s'.asks == st.asks)
  {
  }

  /**
   * A price level that neither the resync snapshot nor any later diff mentions
   * survives a resync: below, the level at 1.0 predates the gap.
   */
  lemma ResyncKeepsStaleLevels()
    ensures var st := Mirror(map[1.0 := 5.0], map[], 10, [], true, Snapshot(10, [], []), [], [], []);
      var gap := DepthFrame(20, 20, [], []);
      var newSnap := Snapshot(30, [], []);
      var s1 := Step(st, Text(Depth(gap)), newSnap).st;
      var s2 := Step(s1, Text(Depth(DepthFrame(31, 31, [], []))), newSnap).st;
      && !s1.synced && s2.synced
      && s2.bids == map[1.0 := 5.0]
      && LastFor(newSnap.bids, 1.0) == None
  {
    var st := Mirror(map[1.0 := 5.0], map[], 10, [], true, Snapshot(10, [], []), [], [], []);
    var newSnap := Snapshot(30, [], []);
    var s1 := Step(st, Text(Depth(DepthFrame(20, 20, [], []))), newSnap).st;
    assert s1.bids == map[1.0 := 5.0] && s1.lastUpdateId == 30;
    var f2 := DepthFrame(31, 31, [], []);
    var s2 := Step(s1, Text(Depth(f2)), newSnap).st;
    assert Changes([f2], BidHalf) == [] by {
      assert [f2][..0] == [];
    }
  }

  /** The frame a message carries into the depth log, if it is a depthUpdate. */
  function DepthOf(msg: Msg): seq<DepthFrame> {
    if msg.Text? && msg.event.Depth? then [msg.event.frame] else []
  }

  /** The payload a message carries into the trade log, if it is a trade. */
  function TradeOf(msg: Msg): seq<string> {
    if msg.Text? && msg.event.Trade? then [msg.event.payload] else []
  }

  /** The depth frames among the inputs, in order. */
  function DepthFrames(ins: seq<Input>): seq<DepthFrame> {
    if ins == [] then [] else DepthOf(ins[0].msg) + DepthFrames(ins[1..])
  }

  /** The trade payloads among the inputs, in order. */
  function Trades(ins: seq<Input>): seq<string> {
    if ins == [] then [] else TradeOf(ins[0].msg) + Trades(ins[1..])
  }

  /** One pass appends exactly the message's own frame or payload to the logs. */
  lemma StepLogGrowth(st: Mirror, msg: Msg, newSnap: Snapshot)
    ensures var n := Step(st, msg, newSnap);
      && (n.stop <==> msg.Closed? || msg.Error?)
      && n.st.depthLog == st.depthLog + DepthOf(msg)
      && n.st.tradeLog == st.tradeLog + TradeOf(msg)
  {
  }

  /** A pass that does not break hands the rest of the loop a state whose logs grew by the message's own entry. */
  lemma RunHead(st: Mirror, ins: seq<Input>) returns (next: Mirror)
    requires ins != [] && !ins[0].msg.Closed? && !ins[0].msg.Error?
    ensures Run(st, ins) == Run(next, ins[1..])
    ensures next.depthLog == st.depthLog + DepthOf(ins[0].msg)
    ensures next.tradeLog == st.tradeLog + TradeOf(ins[0].msg)
  {
    StepLogGrowth(st, ins[0].msg, ins[0].newSnap);
    next := Step(st, ins[0].msg, ins[0].newSnap).st;
  }

  /** Until the socket closes, every depthUpdate and every trade received is logged, in order. */
  lemma {:induction false} RunLogs(st: Mirror, ins: seq<Input>)
    requires forall i :: 0 <= i < |ins| ==> !ins[i].msg.Closed? && !ins[i].msg.Error?
    ensures Run(st, ins).depthLog == st.depthLog + DepthFrames(ins)
    ensures Run(st, ins).tradeLog == st.tradeLog + Trades(ins)
    decreases |ins|
  {
    if ins != [] {
      assert !ins[0].msg.Closed? && !ins[0].msg.Error?;
      var next := RunHead(st, ins);
      RunLogs(next, ins[1..]);
      assert DepthFrames(ins) == DepthOf(ins[0].msg) + DepthFrames(ins[1..]);
      assert Trades(ins) == TradeOf(ins[0].msg) + Trades(ins[1..]);
    }
  }

  /**
   * The locals of _consumer_depth_and_trades: the LocalBook, the pending
   * buffer, the synced flag, the current snapshot and the three outputs.
   */
  class Capture {
    const local: LocalBook
    var pending: seq<DepthFrame>
    var synced: bool
    var snap: Snapshot
    var depthLog: seq<DepthFrame>
    var tradeLog: seq<string>
    var snapLog: seq<Snapshot>

    ghost function Abs(): Mirror
      reads this, local
    {
      Mirror(local.bids, local.asks, local.lastUpdateId, pending, synced, snap, depthLog, tradeLog, snapLog)
    }

    /** LocalBook(), then the initial snapshot's lastUpdateId, persisted. */
    constructor (snap0: Snapshot)
      ensures Abs() == Initial(snap0)
    {
      var lb := new LocalBook();
      lb.lastUpdateId := snap0.lastUpdateId;
      local := lb;
      pending := [];
      synced := false;
      snap := snap0;
      depthLog := [];
      tradeLog := [];
      snapLog := [snap0];
    }

    /** The snapshot, then every pending diff in order, each setting last_update_id to its u. */
    method ReplayPending()
      requires pending != []
      modifies local
      ensures local.bids == ApplyChanges(ApplyChanges(old(local.bids), snap.bids), Changes(pending, BidHalf))
      ensures local.asks == ApplyChanges(ApplyChanges(old(local.asks), snap.asks), Changes(pending, AskHalf))
      ensures local.lastUpdateId == pending[|pending| - 1].last
    {
      local.ApplyDiff(snap.bids, snap.asks);
      ghost var b0, a0 := local.bids, local.asks;
      var i := 0;
      while i < |pending|
        invariant 0 <= i <= |pending|
        invariant local.bids == ApplyChanges(b0, Changes(pending[..i], BidHalf))
        invariant local.asks == ApplyChanges(a0, Changes(pending[..i], AskHalf))
        invariant i > 0 ==> local.lastUpdateId == pending[i - 1].last
      {
        var ev := pending[i];
        ghost var b1, a1 := local.bids, local.asks;
        local.ApplyDiff(ev.bids, ev.asks);
        local.lastUpdateId := ev.last;
        ChangesPrefix(pending, i, BidHalf);
        ChangesPrefix(pending, i, AskHalf);
        ApplyChangesConcat(b0, Changes(pending[..i], BidHalf), ev.bids);
        ApplyChangesConcat(a0, Changes(pending[..i], AskHalf), ev.asks);
        i := i + 1;
      }
      assert pending[..i] == pending;
    }

    /** The depthUpdate branch of the loop body. */
    method HandleDepth(f: DepthFrame, newSnap: Snapshot)
      modifies this, local
      ensures Abs() == OnDepth(old(Abs()), f, newSnap)
    {
      depthLog := depthLog + [f];
      if f.last <= local.lastUpdateId {
        return;
      }
      if !synced {
        pending := pending + [f];
        if f.first <= local.lastUpdateId + 1 <= f.last {
          ReplayPending();
          pending := [];
          synced := true;
        }
        return;
      }
      if f.first <= local.lastUpdateId + 1 <= f.last {
        local.ApplyDiff(f.bids, f.asks);
        local.lastUpdateId := f.last;
      } else {
        synced := false;
        pending := [];
        snap := newSnap;
        local.lastUpdateId := newSnap.lastUpdateId;
        snapLog := snapLog + [newSnap];
      }
    }

    /** One iteration of the receive loop; stop means break. */
    method Handle(msg: Msg, newSnap: Snapshot) returns (stop: bool)
      modifies this, local
      ensures Next(Abs(), stop) == Step(old(Abs()), msg, newSnap)
    {
      stop := msg.Closed? || msg.Error?;
      if msg.Text? {
        match msg.event
        case Depth(f) =>
          HandleDepth(f, newSnap);
        case Trade(p) =>
          tradeLog := tradeLog + [p];
        case Unknown =>
      }
    }
  }

  /** _endpoints: the REST and websocket bases of a supported exchange, None for the ValueError. */
  function Endpoints(exchange: string): (r: Option<(string, string)>)
    ensures r.Some? <==> Lower(exchange) == "binance" || Lower(exchange) == "binanceus"
  {
    var e := Lower(exchange);
    if e == "binance" then Some(("https://api.binance.com", "wss://stream.binance.com:9443/stream"))
    else if e == "binanceus" then Some(("https://api.binance.us", "wss://stream.binance.us:9443/stream"))
    else None
  }

  /** The exchange name is matched case-insensitively. */
  lemma EndpointsIgnoreCase(exchange: string)
    ensures Endpoints(exchange) == Endpoints(Lower(exchange))
  {
    LowerIdempotent(exchange);
  }
}

/**
 The TCP write queue of uv_lwip/uv_lwip.c as a state machine: requests of several
 buffers are queued, copied into lwIP as its send buffer allows, acknowledged in
 arbitrary pieces and completed by callbacks.

 The environment is a parameter of every step: the free send buffer, which
 tcp_write calls report ERR_MEM, how many bytes an ACK covers, and what a
 completion callback writes in turn.
 */
module WriteQueue {
  import opened Bytes

  type Buffers = seq<seq<byte>>

  /** struct uvl_write. */
  datatype Req = Req(
    bufs: Buffers,
    sentBufs: nat,   // buffers completely handed to TCP
    sent: nat,       // bytes of the current buffer handed to TCP
    pending: nat,    // bytes handed to TCP and not yet acknowledged
    totalSent: nat,
    totalLen: nat
  ) {
    predicate Valid() {
      && sentBufs <= |bufs| && |bufs| > 0
      && sent <= (if sentBufs < |bufs| then |bufs[sentBufs]| else 0)
      && totalSent == |Flatten(bufs[..sentBufs])| + sent
      && totalLen == |Flatten(bufs)|
      && pending <= totalSent
    }

    predicate Fresh() {
      sentBufs == 0 && sent == 0 && pending == 0 && totalSent == 0
    }

    /** The test of the completion loop. */
    predicate Finished() {
      totalSent == totalLen && pending == 0
    }

    predicate Unsent() {
      sentBufs < |bufs|
    }
  }

  /** What uvl_write demands of its caller: at least one buffer, and a length that fits uint32_t. */
  predicate Writable(bufs: Buffers) {
    |bufs| > 0 && |Flatten(bufs)| < 0x1_0000_0000
  }

  predicate WritableAll(ws: seq<Buffers>) {
    forall i :: 0 <= i < |ws| ==> Writable(ws[i])
  }

  function NewReq(bufs: Buffers): Req {
    Req(bufs, 0, 0, 0, 0, |Flatten(bufs)|)
  }

  /** lwIP's side of one wake-up: free send buffer, and the outcomes of successive tcp_write calls. */
  datatype Tcp = Tcp(sndbuf: nat, outOfMemory: seq<bool>) {
    predicate Refuses() {
      outOfMemory != [] && outOfMemory[0]
    }

    /** After a tcp_write of n bytes. */
    function Taken(n: nat): Tcp
      requires n <= sndbuf
    {
      Tcp(sndbuf - n, if outOfMemory == [] then [] else outOfMemory[1..])
    }
  }

  function Min(a: nat, b: nat): nat {
    if a < b then a else b
  }

  // ------------------------------------------------------- handing bytes over

  /** `again` is the return value 1 of uvl_imp_write_buf_to_tcp; `chunk` is what tcp_write copied. */
  datatype Wrote = Wrote(req: Req, chunk: seq<byte>, tcp: Tcp, again: bool)

  /** uvl_imp_write_buf_to_tcp: the do-while loop over one buffer. */
  function WriteBuf(r: Req, tcp: Tcp): (w: Wrote)
    requires r.Valid() && r.Unsent()
    ensures w.tcp.sndbuf <= tcp.sndbuf
    decreases |r.bufs[r.sentBufs]| - r.sent
  {
    var buf := r.bufs[r.sentBufs];
    var n := Min(|buf| - r.sent, tcp.sndbuf);
    if n == 0 then NextBuf(r, tcp)
    else if tcp.Refuses() then Wrote(r, [], tcp.Taken(0), false)
    else
      var r' := r.(sent := r.sent + n, pending := r.pending + n, totalSent := r.totalSent + n);
      var rest := if r'.sent < |buf| then WriteBuf(r', tcp.Taken(n)) else NextBuf(r', tcp.Taken(n));
      rest.(chunk := buf[r.sent..r.sent + n] + rest.chunk)
  }

  /** The may_next label: an exhausted send buffer stops the writer, otherwise the next buffer is due. */
  function NextBuf(r: Req, tcp: Tcp): Wrote {
    if tcp.sndbuf == 0 then Wrote(r, [], tcp, false)
    else Wrote(r.(sent := 0, sentBufs := r.sentBufs + 1), [], tcp, true)
  }

  /** r' is r with the next bytes of its stream, `chunk`, handed over. */
  predicate Advanced(r: Req, r': Req, chunk: seq<byte>) {
    && r.Valid() && r'.Valid() && r'.bufs == r.bufs
    && r'.totalSent == r.totalSent + |chunk| && r'.pending == r.pending + |chunk|
    && r'.totalSent <= r.totalLen
    && chunk == Flatten(r.bufs)[r.totalSent..r'.totalSent]
  }

  /** Where buffer i lies in the stream of a request. */
  lemma BufferAt(bufs: Buffers, i: nat)
    requires i < |bufs|
    ensures var start := |Flatten(bufs[..i])|;
            && start + |bufs[i]| <= |Flatten(bufs)|
            && |Flatten(bufs[..i + 1])| == start + |bufs[i]|
            && bufs[i] == Flatten(bufs)[start..start + |bufs[i]|]
  {
    FlattenSplit(bufs, i);
    assert bufs[..i + 1] == bufs[..i] + [bufs[i]];
    FlattenSnoc(bufs[..i], bufs[i]);
    assert Flatten(bufs[i..]) == bufs[i] + Flatten(bufs[i..][1..]);
  }

  lemma AdvancedTrans(a: Req, b: Req, c: Req, x: seq<byte>, y: seq<byte>)
    requires Advanced(a, b, x) && Advanced(b, c, y)
    ensures Advanced(a, c, x + y)
  {
    hide Flatten;
    var s := Flatten(a.bufs);
    assert s[a.totalSent..b.totalSent] + s[b.totalSent..c.totalSent] == s[a.totalSent..c.totalSent];
  }

  /** One successful tcp_write of n bytes of the current buffer. */
  lemma TakeAdvances(r: Req, n: nat)
    requires r.Valid() && r.Unsent() && r.sent + n <= |r.bufs[r.sentBufs]|
    ensures Advanced(r, r.(sent := r.sent + n, pending := r.pending + n, totalSent := r.totalSent + n),
                     r.bufs[r.sentBufs][r.sent..r.sent + n])
  {
    BufferAt(r.bufs, r.sentBufs);
    var start := |Flatten(r.bufs[..r.sentBufs])|;
    SliceOfSlice(Flatten(r.bufs), start, start + |r.bufs[r.sentBufs]|, r.sent, r.sent + n);
    hide Flatten;
  }

  lemma NextBufAdvances(r: Req, tcp: Tcp)
    requires r.Valid() && r.Unsent()
    requires tcp.sndbuf > 0 ==> r.sent == |r.bufs[r.sentBufs]|
    ensures var w := NextBuf(r, tcp); Advanced(r, w.req, w.chunk)
  {
    BufferAt(r.bufs, r.sentBufs);
  }

  /** Consecutive bytes are handed over, the window shrinks, and the next buffer comes only after a finished one. */
  predicate HandsOver(r: Req, tcp: Tcp, w: Wrote) {
    && Advanced(r, w.req, w.chunk)
    && w.req.sentBufs == (if w.again then r.sentBufs + 1 else r.sentBufs)
    && |w.chunk| + w.tcp.sndbuf == tcp.sndbuf
  }

  /** The do-while loop ends here: nothing fits, or tcp_write refuses. */
  lemma WriteBufStops(r: Req, tcp: Tcp)
    requires r.Valid() && r.Unsent()
    requires Min(|r.bufs[r.sentBufs]| - r.sent, tcp.sndbuf) == 0 || tcp.Refuses()
    ensures HandsOver(r, tcp, WriteBuf(r, tcp))
  {
    hide Flatten;
    if Min(|r.bufs[r.sentBufs]| - r.sent, tcp.sndbuf) == 0 {
      NextBufAdvances(r, tcp);
    } else {
      TakeAdvances(r, 0);
    }
  }

  lemma HandsOverMore(r: Req, n: nat, tcp: Tcp, rest: Wrote)
    requires r.Valid() && r.Unsent() && n <= tcp.sndbuf && r.sent + n <= |r.bufs[r.sentBufs]|
    requires HandsOver(r.(sent := r.sent + n, pending := r.pending + n, totalSent := r.totalSent + n),
                       tcp.Taken(n), rest)
    ensures HandsOver(r, tcp, rest.(chunk := r.bufs[r.sentBufs][r.sent..r.sent + n] + rest.chunk))
  {
    TakeAdvances(r, n);
    hide Advanced, Req.Valid;
    var r' := r.(sent := r.sent + n, pending := r.pending + n, totalSent := r.totalSent + n);
    AdvancedTrans(r, r', rest.req, r.bufs[r.sentBufs][r.sent..r.sent + n], rest.chunk);
  }

  /** WriteBuf hands over consecutive bytes of the stream and moves on only past a finished buffer. */
  lemma {:induction false} WriteBufAdvances(r: Req, tcp: Tcp)
    requires r.Valid() && r.Unsent()
    ensures HandsOver(r, tcp, WriteBuf(r, tcp))
    decreases |r.bufs[r.sentBufs]| - r.sent
  {
    var buf := r.bufs[r.sentBufs];
    assert r.sent <= |buf|;
    hide Flatten, WriteBuf, HandsOver, Req.Valid;
    var n := Min(|buf| - r.sent, tcp.sndbuf);
    WriteBufStep(r, tcp);
    if n == 0 || tcp.Refuses() {
      WriteBufStops(r, tcp);
    } else {
      var r' := r.(sent := r.sent + n, pending := r.pending + n, totalSent := r.totalSent + n);
      WriteBufAdvances(r', tcp.Taken(n));
      HandsOverMore(r, n, tcp, WriteBuf(r', tcp.Taken(n)));
    }
  }

  /** One iteration of the loop in WriteBuf, whether or not it is the last. */
  lemma WriteBufStep(r: Req, tcp: Tcp)
    requires r.Valid() && r.Unsent()
    ensures var buf := r.bufs[r.sentBufs];
            var n := Min(|buf| - r.sent, tcp.sndbuf);
            var r' := r.(sent := r.sent + n, pending := r.pending + n, totalSent := r.totalSent + n);
            if n == 0 then WriteBuf(r, tcp) == NextBuf(r, tcp)
            else if tcp.Refuses() then WriteBuf(r, tcp) == Wrote(r, [], tcp.Taken(0), false)
            else r'.Valid() && r'.Unsent() && r'.bufs[r'.sentBufs] == buf &&
                 var w := WriteBuf(r', tcp.Taken(n));
                 WriteBuf(r, tcp) == w.(chunk := buf[r.sent..r.sent + n] + w.chunk)
  {
    hide Flatten;
    TakeAdvances(r, Min(|r.bufs[r.sentBufs]| - r.sent, tcp.sndbuf));
  }

  /** What one call of uvl_imp_write_to_tcp did to the queue. */
  datatype Filled = Filled(queue: seq<Req>, chunk: seq<byte>)

  function Prepend(chunk: seq<byte>, f: Filled): Filled {
    f.(chunk := chunk + f.chunk)
  }

  predicate ValidQueue(q: seq<Req>) {
    forall k :: 0 <= k < |q| ==> q[k].Valid()
  }

  predicate AllFresh(q: seq<Req>) {
    forall k :: 0 <= k < |q| ==> q[k].Fresh()
  }

  /** Nothing of a request is handed over before all buffers of the earlier ones are. */
  predicate InOrder(q: seq<Req>) {
    forall j, k :: 0 <= j < k < |q| && q[j].Unsent() ==> q[k].Fresh()
  }

  /** The first loop of uvl_imp_write_to_tcp: the first request with buffers left. */
  function FirstUnsent(q: seq<Req>): (i: nat)
    ensures i <= |q|
    ensures i < |q| ==> q[i].Unsent()
    ensures forall k :: 0 <= k < i ==> !q[k].Unsent()
  {
    if q == [] || q[0].Unsent() then 0 else 1 + FirstUnsent(q[1..])
  }

  /** Requests before i are completely handed over, request i is the next to write. */
  predicate Cursor(q: seq<Req>, i: nat) {
    && ValidQueue(q) && InOrder(q)
    && i <= |q|
    && (forall k :: 0 <= k < i ==> !q[k].Unsent())
    && (i < |q| ==> q[i].Unsent())
  }

  /** The second loop: buffer after buffer, request after request, until TCP takes no more. */
  function FillFrom(q: seq<Req>, i: nat, tcp: Tcp): Filled
    requires Cursor(q, i)
    decreases |q| - i, if i < |q| then |q[i].bufs| - q[i].sentBufs else 0
  {
    if i == |q| then Filled(q, []) else
    WriteBufAdvances(q[i], tcp);
    var w := WriteBuf(q[i], tcp);
    var q' := q[i := w.req];
    if !w.again then Filled(q', w.chunk) else
    CursorMoves(q, i, w.req);
    var rest := FillFrom(q', if w.req.Unsent() then i else i + 1, w.tcp);
    Prepend(w.chunk, rest)
  }

  lemma CursorMoves(q: seq<Req>, i: nat, r: Req)
    requires Cursor(q, i) && i < |q|
    requires r.Valid() && r.bufs == q[i].bufs
    ensures ValidQueue(q[i := r]) && InOrder(q[i := r])
    ensures Cursor(q[i := r], if r.Unsent() then i else i + 1)
  {
    assert forall k :: i < k < |q| ==> q[k].Fresh() && q[k].Valid();
  }

  /** uvl_imp_write_to_tcp. */
  function Fill(q: seq<Req>, tcp: Tcp): Filled
    requires ValidQueue(q) && InOrder(q)
  {
    FillFrom(q, FirstUnsent(q), tcp)
  }

  lemma FillOfEmpty(tcp: Tcp)
    ensures Fill([], tcp) == Filled([], [])
  {
  }

  /** Where the second loop stands: request i is next, `chunk` has been handed over. */
  ghost predicate Filling(goal: Filled, q: seq<Req>, i: nat, tcp: Tcp, chunk: seq<byte>) {
    Cursor(q, i) && goal == Prepend(chunk, FillFrom(q, i, tcp))
  }

  lemma FillStart(q: seq<Req>, i: nat, tcp: Tcp)
    requires ValidQueue(q) && InOrder(q)
    requires i <= |q| && (forall k :: 0 <= k < i ==> !q[k].Unsent()) && (i < |q| ==> q[i].Unsent())
    ensures Filling(Fill(q, tcp), q, i, tcp, [])
  {
    hide FillFrom;
    assert FirstUnsent(q) == i;
  }

  /** One iteration of the second loop. */
  lemma FillStep(goal: Filled, q: seq<Req>, i: nat, tcp: Tcp, chunk: seq<byte>)
    requires Filling(goal, q, i, tcp, chunk) && i < |q|
    ensures q[i].Valid() && q[i].Unsent()
    ensures var w := WriteBuf(q[i], tcp);
            var q' := q[i := w.req];
            && w.req.bufs == q[i].bufs && w.req.sentBufs == (if w.again then q[i].sentBufs + 1 else q[i].sentBufs)
            && if w.again then Filling(goal, q', if w.req.Unsent() then i else i + 1, w.tcp, chunk + w.chunk)
               else goal == Filled(q', chunk + w.chunk)
  {
    WriteBufAdvances(q[i], tcp);
    var w := WriteBuf(q[i], tcp);
    CursorMoves(q, i, w.req);
    hide WriteBuf, Req.Valid, Flatten;
    if w.again {
      var rest := FillFrom(q[i := w.req], if w.req.Unsent() then i else i + 1, w.tcp);
      assert chunk + (w.chunk + rest.chunk) == chunk + w.chunk + rest.chunk;
    }
  }

  lemma FillEnd(goal: Filled, q: seq<Req>, tcp: Tcp, chunk: seq<byte>)
    requires Filling(goal, q, |q|, tcp, chunk)
    ensures goal == Filled(q, chunk)
  {
  }

  // -------------------------------------------------------- acknowledgements

  function Pending(q: seq<Req>): nat {
    if q == [] then 0 else q[0].pending + Pending(q[1..])
  }

  /** The loop of uvl_client_sent_func: the ACK is spread over the requests, oldest first. */
  function Spread(q: seq<Req>, len: nat): (r: seq<Req>)
    requires len <= Pending(q)
    ensures |r| == |q|
  {
    if len == 0 then q else
    var n := Min(q[0].pending, len);
    [q[0].(pending := q[0].pending - n)] + Spread(q[1..], len - n)
  }

  /** Where the loop stands: requests before i are done, `left` bytes remain for the others. */
  ghost predicate Spreading(goal: seq<Req>, q: seq<Req>, i: nat, left: nat) {
    i <= |q| && left <= Pending(q[i..]) && goal == q[..i] + Spread(q[i..], left)
  }

  lemma SpreadStart(q: seq<Req>, len: nat)
    requires len <= Pending(q)
    ensures Spreading(Spread(q, len), q, 0, len)
  {
    assert q[0..] == q;
  }

  /** One iteration: as long as bytes are left, there is a request to take them. */
  lemma SpreadStep(goal: seq<Req>, q: seq<Req>, i: nat, left: nat)
    requires Spreading(goal, q, i, left) && left > 0
    ensures i < |q|
    ensures var n := Min(q[i].pending, left);
            Spreading(goal, q[i := q[i].(pending := q[i].pending - n)], i + 1, left - n)
  {
    var n := Min(q[i].pending, left);
    var r := q[i].(pending := q[i].pending - n);
    assert q[i := r][i + 1..] == q[i..][1..];
    assert q[i := r][..i + 1] == q[..i] + [r];
  }

  lemma SpreadEnd(goal: seq<Req>, q: seq<Req>, i: nat)
    requires Spreading(goal, q, i, 0)
    ensures goal == q
  {
    assert q == q[..i] + q[i..];
  }

  // ------------------------------------------------------------ the machine

  datatype Status = Ok | Canceled

  /** A completion callback: which request (by order of submission), its status, and the bytes acknowledged by then. */
  datatype Callback = Callback(id: nat, status: Status, ackedBy: nat)

  datatype State = State(
    queue: seq<Req>,             // cur_write .. tail_write
    closed: bool,
    submitted: seq<seq<byte>>,   // contents of all requests so far
    handed: seq<byte>,           // bytes accepted by tcp_write
    acked: nat,                  // bytes acknowledged
    callbacks: seq<Callback>,
    canceled: bool               // some request has been canceled
  )

  const INIT := State([], false, [], [], 0, [], false)

  /**
   Wake: uvl_async_tcp_write_cb. `writes[i]` are the requests that the i-th
   completion callback of this wake-up submits with uvl_write.
   */
  datatype Event = Write(bufs: Buffers) | Wake(tcp: Tcp, writes: seq<seq<Buffers>>) | Ack(len: nat) | Close

  /** Acknowledgements cover outstanding bytes, and come only while the connection is open. */
  predicate Allowed(s: State, e: Event) {
    match e
    case Write(bufs) => Writable(bufs)
    case Wake(_, writes) => forall i :: 0 <= i < |writes| ==> WritableAll(writes[i])
    case Ack(len) => !s.closed && 0 < len <= |s.handed| - s.acked && len < 0x1_0000
    case Close => true
  }

  /** uvl_write. */
  function Submit(s: State, bufs: Buffers): State {
    s.(queue := s.queue + [NewReq(bufs)], submitted := s.submitted + [Flatten(bufs)])
  }

  function SubmitAll(s: State, ws: seq<Buffers>): (s': State)
    ensures |s'.queue| == |s.queue| + |ws|
    decreases |ws|
  {
    if ws == [] then s else SubmitAll(Submit(s, ws[0]), ws[1..])
  }

  function HeadId(s: State): nat {
    if |s.submitted| < |s.queue| then 0 else |s.submitted| - |s.queue|
  }

  function Complete(s: State, status: Status): State
    requires s.queue != []
  {
    s.(queue := s.queue[1..], callbacks := s.callbacks + [Callback(HeadId(s), status, s.acked)])
  }

  function TotalWrites(writes: seq<seq<Buffers>>): nat {
    if writes == [] then 0 else |writes[0]| + TotalWrites(writes[1..])
  }

  /**
   The completion loop. The successor is read before the callback runs, so a
   request that the last callback submits is left for the next wake-up.
   */
  function Reap(s: State, writes: seq<seq<Buffers>>): State
    decreases |s.queue| + TotalWrites(writes)
  {
    if s.queue == [] || !s.queue[0].Finished() then s else
    var last := |s.queue| == 1;
    var ws := if writes == [] then [] else writes[0];
    var s' := SubmitAll(Complete(s, Ok), ws);
    if last then s' else Reap(s', if writes == [] then [] else writes[1..])
  }

  /** Where the completion loop stands; it is over when `more` is false. */
  ghost predicate Reaping(goal: State, s: State, writes: seq<seq<Buffers>>, more: bool) {
    goal == if more then Reap(s, writes) else s
  }

  lemma ReapEmpty(s: State, writes: seq<seq<Buffers>>)
    requires s.queue == []
    ensures Reap(s, writes) == s
  {
  }

  lemma ReapStep(goal: State, s: State, writes: seq<seq<Buffers>>)
    requires Reaping(goal, s, writes, true) && s.queue != []
    ensures !s.queue[0].Finished() ==> goal == s
    ensures s.queue[0].Finished() ==>
              var s' := SubmitAll(Complete(s, Ok), if writes == [] then [] else writes[0]);
              && Reaping(goal, s', if writes == [] then [] else writes[1..], |s.queue| > 1)
              && |s'.queue| + TotalWrites(if writes == [] then [] else writes[1..]) < |s.queue| + TotalWrites(writes)
  {
  }

  /** uvl_cancel_reqs. */
  function CancelAll(s: State): State
    decreases |s.queue|
  {
    if s.queue == [] then s else CancelAll(Complete(s, Canceled).(canceled := true))
  }

  function Step(s: State, e: Event): State
    requires Inv(s) && Allowed(s, e)
  {
    match e
    case Write(bufs) => Submit(s, bufs)
    case Ack(len) => s.(queue := Spread(s.queue, len), acked := s.acked + len)
    case Close => s.(closed := true)
    case Wake(tcp, writes) =>
      var reaped := Reap(s, writes);
      if reaped.closed then CancelAll(reaped)
      else
        ReapKeepsInv(s, writes);
        var filled := Fill(reaped.queue, tcp);
        reaped.(queue := filled.queue, handed := reaped.handed + filled.chunk)
  }

  // ----------------------------------------------------------- the invariant

  /** The bytes of the queued requests that TCP has. */
  function HandedOf(q: seq<Req>): seq<byte>
    requires ValidQueue(q)
  {
    if q == [] then [] else SentPart(q[0]) + HandedOf(q[1..])
  }

  function SentPart(r: Req): seq<byte>
    requires r.Valid()
  {
    SentFits(r);
    Flatten(r.bufs)[..r.totalSent]
  }

  lemma SentFits(r: Req)
    requires r.Valid()
    ensures r.totalSent <= r.totalLen
    ensures !r.Unsent() ==> r.totalSent == r.totalLen
  {
    if r.Unsent() {
      BufferAt(r.bufs, r.sentBufs);
    } else {
      assert r.bufs[..r.sentBufs] == r.bufs;
    }
  }

  /** Acknowledged bytes are the first ones: after a request with bytes outstanding, nothing is acknowledged. */
  predicate AckedInOrder(q: seq<Req>) {
    forall j, k :: 0 <= j < k < |q| && q[j].pending > 0 ==> q[k].pending == q[k].totalSent
  }

  /** The queue holds the last requests submitted, and the others have been called back once each, in order. */
  predicate InvCallbacks(s: State) {
    && |s.queue| + |s.callbacks| == |s.submitted|
    && (forall i :: 0 <= i < |s.callbacks| ==> s.callbacks[i].id == i)
    && (forall k :: 0 <= k < |s.queue| ==> Flatten(s.queue[k].bufs) == s.submitted[|s.callbacks| + k])
  }

  /** Conservation, while nothing has been canceled. */
  predicate InvStream(s: State)
    requires ValidQueue(s.queue) && |s.callbacks| <= |s.submitted|
  {
    && s.handed == Flatten(s.submitted[..|s.callbacks|]) + HandedOf(s.queue)
    && s.acked + Pending(s.queue) == |s.handed|
    && InOrder(s.queue) && AckedInOrder(s.queue)
  }

  /** Bytes up to and including request i. */
  function EndOf(submitted: seq<seq<byte>>, i: nat): nat
    requires i < |submitted|
  {
    |Flatten(submitted[..i + 1])|
  }

  /** Some callback before the i-th reported a cancellation. */
  predicate CanceledBefore(callbacks: seq<Callback>, i: nat) {
    exists j :: 0 <= j < i && j < |callbacks| && callbacks[j].status == Canceled
  }

  /**
   A request reported as written had all its bytes, and all earlier ones,
   acknowledged, unless it is empty and comes after a cancellation.
   */
  predicate Truthful(s: State, i: nat)
    requires i < |s.callbacks|
  {
    var c := s.callbacks[i];
    && c.id < |s.submitted| && c.ackedBy <= s.acked
    && (c.status == Ok ==>
          EndOf(s.submitted, c.id) <= c.ackedBy || (s.submitted[c.id] == [] && CanceledBefore(s.callbacks, i)))
  }

  predicate Honest(s: State) {
    && (s.canceled ==> CanceledBefore(s.callbacks, |s.callbacks|))
    && forall i :: 0 <= i < |s.callbacks| ==> Truthful(s, i)
  }

  predicate Inv(s: State) {
    && ValidQueue(s.queue)
    && InvCallbacks(s)
    && s.handed <= Flatten(s.submitted)
    && Honest(s)
    && (s.canceled ==> s.closed && AllFresh(s.queue))
    && (!s.canceled ==> InvStream(s))
  }

  // ------------------------------------------- what each operation preserves

  lemma {:induction false} FreshHandsNothing(q: seq<Req>)
    requires ValidQueue(q) && AllFresh(q)
    ensures HandedOf(q) == [] && Pending(q) == 0
  {
    if q != [] {
      FreshHandsNothing(q[1..]);
    }
  }

  /** Advancing the request at the cursor extends what TCP has at its end. */
  lemma {:induction false} AdvanceExtends(q: seq<Req>, i: nat, r: Req, chunk: seq<byte>)
    requires ValidQueue(q) && i < |q| && Advanced(q[i], r, chunk)
    requires forall k :: i < k < |q| ==> q[k].Fresh()
    ensures ValidQueue(q[i := r])
    ensures HandedOf(q[i := r]) == HandedOf(q) + chunk
    ensures Pending(q[i := r]) == Pending(q) + |chunk|
  {
    if i == 0 {
      AdvanceHead(q, r, chunk);
    } else {
      hide Advanced;
      assert q[i := r][1..] == q[1..][i - 1 := r];
      AdvanceExtends(q[1..], i - 1, r, chunk);
    }
  }

  lemma AdvanceHead(q: seq<Req>, r: Req, chunk: seq<byte>)
    requires ValidQueue(q) && q != [] && Advanced(q[0], r, chunk)
    requires forall k :: 0 < k < |q| ==> q[k].Fresh()
    ensures ValidQueue(q[0 := r])
    ensures HandedOf(q[0 := r]) == HandedOf(q) + chunk
    ensures Pending(q[0 := r]) == Pending(q) + |chunk|
  {
    assert q[0 := r][1..] == q[1..];
    FreshHandsNothing(q[1..]);
    assert SentPart(r) == SentPart(q[0]) + chunk;
  }

  predicate SameBuffers(q: seq<Req>, q': seq<Req>) {
    |q| == |q'| && forall k :: 0 <= k < |q| ==> q'[k].bufs == q[k].bufs
  }

  /** q' is q after `chunk` has been handed over: in order, and pending. */
  predicate Conserved(q: seq<Req>, q': seq<Req>, chunk: seq<byte>)
    requires ValidQueue(q)
  {
    && ValidQueue(q') && InOrder(q') && AckedInOrder(q') && SameBuffers(q, q')
    && HandedOf(q') == HandedOf(q) + chunk
    && Pending(q') == Pending(q) + |chunk|
  }

  lemma ConservedTrans(a: seq<Req>, b: seq<Req>, c: seq<Req>, x: seq<byte>, y: seq<byte>)
    requires ValidQueue(a) && ValidQueue(b) && Conserved(a, b, x) && Conserved(b, c, y)
    ensures Conserved(a, c, x + y)
  {
    hide HandedOf, Pending, InOrder, AckedInOrder, ValidQueue;
  }

  lemma WriteAtConserves(q: seq<Req>, i: nat, tcp: Tcp)
    requires Cursor(q, i) && AckedInOrder(q) && i < |q|
    ensures var w := WriteBuf(q[i], tcp);
            && Conserved(q, q[i := w.req], w.chunk)
            && (w.again ==> Cursor(q[i := w.req], if w.req.Unsent() then i else i + 1))
  {
    hide WriteBuf, HandedOf, Pending, Flatten;
    WriteBufAdvances(q[i], tcp);
    var w := WriteBuf(q[i], tcp);
    CursorMoves(q, i, w.req);
    AdvanceExtends(q, i, w.req, w.chunk);
    hide Req.Valid;
    var q' := q[i := w.req];
    assert AckedInOrder(q') by {
      forall j, k | 0 <= j < k < |q| && q'[j].pending > 0
        ensures q'[k].pending == q'[k].totalSent
      {
        assert j == i ==> q[k].Fresh();
      }
    }
  }

  /** Filling keeps the order of the queue and hands over exactly `chunk`, all of it pending. */
  lemma {:induction false} FillFromConserves(q: seq<Req>, i: nat, tcp: Tcp)
    requires Cursor(q, i) && AckedInOrder(q)
    ensures var f := FillFrom(q, i, tcp); Conserved(q, f.queue, f.chunk)
    decreases |q| - i, if i < |q| then |q[i].bufs| - q[i].sentBufs else 0
  {
    if i < |q| {
      WriteBufAdvances(q[i], tcp);
      hide WriteBuf, HandedOf, Pending, Flatten, InOrder, Req.Valid;
      WriteAtConserves(q, i, tcp);
      var w := WriteBuf(q[i], tcp);
      if w.again {
        var q' := q[i := w.req];
        var next := if w.req.Unsent() then i else i + 1;
        FillFromConserves(q', next, w.tcp);
        var rest := FillFrom(q', next, w.tcp);
        ConservedTrans(q, q', rest.queue, w.chunk, rest.chunk);
      }
    } else {
      assert HandedOf(q) + [] == HandedOf(q);
    }
  }

  /** q' differs from q in lower pending counts only, and only up to the first one still positive. */
  predicate Acknowledged(q: seq<Req>, q': seq<Req>) {
    && |q'| == |q|
    && (forall k :: 0 <= k < |q| ==> q'[k] == q[k].(pending := q'[k].pending) && q'[k].pending <= q[k].pending)
    && (forall j, k :: 0 <= j < k < |q| && q'[j].pending > 0 ==> q'[k].pending == q[k].pending)
  }

  /** An ACK lowers the pending counts by its length, oldest request first. */
  lemma {:induction false} SpreadAcknowledges(q: seq<Req>, len: nat)
    requires len <= Pending(q)
    ensures Acknowledged(q, Spread(q, len)) && Pending(Spread(q, len)) == Pending(q) - len
  {
    if len > 0 {
      var n := Min(q[0].pending, len);
      SpreadAcknowledges(q[1..], len - n);
      var q', tail := Spread(q, len), Spread(q[1..], len - n);
      assert q'[1..] == tail;
      assert n == len ==> tail == q[1..];
      hide Spread, Pending;
      HeadAcknowledged(q, q', n);
    }
  }

  /** The head gives up n; the rest changes only when the head is done. */
  lemma HeadAcknowledged(q: seq<Req>, q': seq<Req>, n: nat)
    requires |q| == |q'| > 0 && n <= q[0].pending && q'[0] == q[0].(pending := q[0].pending - n)
    requires Acknowledged(q[1..], q'[1..]) && (n < q[0].pending ==> q'[1..] == q[1..])
    ensures Acknowledged(q, q')
  {
    assert forall k :: 1 <= k < |q| ==> q'[k] == q'[1..][k - 1] && q[1..][k - 1] == q[k];
  }

  lemma {:induction false} AcknowledgedHanded(q: seq<Req>, q': seq<Req>)
    requires ValidQueue(q) && ValidQueue(q') && Acknowledged(q, q')
    ensures HandedOf(q') == HandedOf(q)
  {
    if q != [] {
      assert forall k :: 1 <= k < |q| ==> q'[1..][k - 1] == q'[k] && q[1..][k - 1] == q[k];
      AcknowledgedHanded(q[1..], q'[1..]);
    }
  }

  lemma {:induction false} SpreadConserves(q: seq<Req>, len: nat)
    requires ValidQueue(q) && InOrder(q) && AckedInOrder(q) && len <= Pending(q)
    ensures var q' := Spread(q, len);
            && ValidQueue(q') && InOrder(q') && AckedInOrder(q') && SameBuffers(q, q')
            && HandedOf(q') == HandedOf(q)
            && Pending(q') == Pending(q) - len
  {
    hide Spread, HandedOf, Pending, Flatten;
    SpreadAcknowledges(q, len);
    var q' := Spread(q, len);
    forall k | 0 <= k < |q|
      ensures q'[k].Valid()
    {
      assert q[k].Valid();
    }
    AcknowledgedHanded(q, q');
  }

  /** Nothing is handed over out of order, so TCP has a prefix of the queued stream. */
  lemma {:induction false} HandedIsPrefix(q: seq<Req>, contents: seq<seq<byte>>)
    requires ValidQueue(q) && InOrder(q)
    requires |contents| == |q| && forall k :: 0 <= k < |q| ==> Flatten(q[k].bufs) == contents[k]
    ensures HandedOf(q) <= Flatten(contents)
  {
    if q != [] {
      HandedIsPrefix(q[1..], contents[1..]);
      SentFits(q[0]);
      if q[0].Unsent() {
        FreshHandsNothing(q[1..]);
      }
    }
  }

  lemma {:induction false} HandedAtLeastPending(q: seq<Req>)
    requires ValidQueue(q)
    ensures Pending(q) <= |HandedOf(q)|
    ensures (forall k :: 0 <= k < |q| ==> q[k].pending == q[k].totalSent) ==> Pending(q) == |HandedOf(q)|
  {
    if q != [] {
      SentFits(q[0]);
      assert |SentPart(q[0])| == q[0].totalSent;
      assert q[0].Valid();
      HandedAtLeastPending(q[1..]);
    }
  }

  /** The completion test is exact: the head is finished if and only if all bytes up to its end are acknowledged. */
  lemma FinishedIffAcked(s: State)
    requires Inv(s) && !s.canceled && s.queue != []
    ensures s.queue[0].Finished() <==> EndOf(s.submitted, |s.callbacks|) <= s.acked
  {
    var m, q := |s.callbacks|, s.queue;
    BufferAt(s.submitted, m);
    SentFits(q[0]);
    HandedAtLeastPending(q[1..]);
    if q[0].Unsent() {
      FreshHandsNothing(q[1..]);
    }
    assert EndOf(s.submitted, m) == |Flatten(s.submitted[..m])| + q[0].totalLen;
    assert |s.handed| == |Flatten(s.submitted[..m])| + q[0].totalSent + |HandedOf(q[1..])|;
  }

  lemma SubmitKeepsCallbacks(s: State, bufs: Buffers)
    requires InvCallbacks(s)
    ensures InvCallbacks(Submit(s, bufs))
  {
    hide Flatten;
  }

  lemma NewReqValid(bufs: Buffers)
    requires Writable(bufs)
    ensures NewReq(bufs).Valid() && NewReq(bufs).Fresh()
  {
    assert bufs[..0] == [];
  }

  lemma SubmitKeepsStream(s: State, bufs: Buffers)
    requires ValidQueue(s.queue) && |s.callbacks| <= |s.submitted| && InvStream(s) && Writable(bufs)
    ensures ValidQueue(Submit(s, bufs).queue) && InvStream(Submit(s, bufs))
  {
    hide HandedOf, Pending, Flatten, Req.Valid;
    var s' := Submit(s, bufs);
    NewReqValid(bufs);
    HandedSnoc(s.queue, NewReq(bufs));
    assert s'.submitted[..|s.callbacks|] == s.submitted[..|s.callbacks|];
  }

  lemma SubmitKeepsInv(s: State, bufs: Buffers)
    requires Inv(s) && Writable(bufs)
    ensures Inv(Submit(s, bufs))
  {
    var s' := Submit(s, bufs);
    SubmitKeepsCallbacks(s, bufs);
    NewReqValid(bufs);
    hide Flatten, Honest, Req.Valid;
    if !s.canceled {
      SubmitKeepsStream(s, bufs);
    }
    hide InvStream;
    FlattenSnoc(s.submitted, Flatten(bufs));
    HonestLater(s, s');
  }

  lemma {:induction false} HandedSnoc(q: seq<Req>, r: Req)
    requires ValidQueue(q) && r.Valid() && r.Fresh()
    ensures HandedOf(q + [r]) == HandedOf(q) && Pending(q + [r]) == Pending(q)
  {
    if q == [] {
      assert q + [r] == [r];
    } else {
      assert (q + [r])[1..] == q[1..] + [r];
      HandedSnoc(q[1..], r);
    }
  }

  /** Later submissions and acknowledgements do not unsettle earlier callbacks. */
  lemma HonestLater(s: State, s': State)
    requires Honest(s) && s.submitted <= s'.submitted && s.acked <= s'.acked
    requires s'.callbacks == s.callbacks && s.canceled == s'.canceled
    ensures Honest(s')
  {
    forall i | 0 <= i < |s.callbacks|
      ensures Truthful(s', i)
    {
      assert Truthful(s, i);
      var id := s.callbacks[i].id;
      assert s'.submitted[..id + 1] == s.submitted[..id + 1];
    }
  }

  /** One more callback leaves the earlier ones truthful. */
  lemma TruthfulKept(s: State, c: Callback, i: nat)
    requires i < |s.callbacks| && Truthful(s, i)
    ensures Truthful(s.(callbacks := s.callbacks + [c]), i)
  {
    hide EndOf;
    var cs := s.callbacks + [c];
    if CanceledBefore(s.callbacks, i) {
      var j :| 0 <= j < i && j < |s.callbacks| && s.callbacks[j].status == Canceled;
      assert cs[j].status == Canceled;
    }
  }

  lemma HonestSnoc(s: State, c: Callback)
    requires Honest(s) && c.id < |s.submitted| && c.ackedBy <= s.acked
    requires c.status == Ok ==> EndOf(s.submitted, c.id) <= c.ackedBy || (s.canceled && s.submitted[c.id] == [])
    ensures Honest(s.(callbacks := s.callbacks + [c]))
    ensures c.status == Canceled ==> Honest(s.(callbacks := s.callbacks + [c], canceled := true))
  {
    hide EndOf;
    var s', n := s.(callbacks := s.callbacks + [c]), |s.callbacks|;
    forall i | 0 <= i < |s'.callbacks|
      ensures Truthful(s', i) && Truthful(s'.(canceled := true), i)
    {
      if i < n {
        TruthfulKept(s, c, i);
      } else {
        LastTruthful(s, c);
      }
    }
    assert s'.callbacks[n] == c;
    if CanceledBefore(s.callbacks, n) {
      var j :| 0 <= j < n && s.callbacks[j].status == Canceled;
      assert s'.callbacks[j].status == Canceled;
    }
  }

  lemma LastTruthful(s: State, c: Callback)
    requires Honest(s) && c.id < |s.submitted| && c.ackedBy <= s.acked
    requires c.status == Ok ==> EndOf(s.submitted, c.id) <= c.ackedBy || (s.canceled && s.submitted[c.id] == [])
    ensures Truthful(s.(callbacks := s.callbacks + [c]), |s.callbacks|)
  {
    hide EndOf;
    var cs, n := s.callbacks + [c], |s.callbacks|;
    if CanceledBefore(s.callbacks, n) {
      var j :| 0 <= j < n && s.callbacks[j].status == Canceled;
      assert cs[j].status == Canceled;
    }
  }

  lemma {:induction false} SubmitAllKeepsInv(s: State, ws: seq<Buffers>)
    requires Inv(s) && WritableAll(ws)
    ensures Inv(SubmitAll(s, ws))
    decreases |ws|
  {
    if ws != [] {
      SubmitKeepsInv(s, ws[0]);
      SubmitAllKeepsInv(Submit(s, ws[0]), ws[1..]);
    }
  }

  /** The new callback is truthful: the completion test implies that the bytes are acknowledged. */
  lemma HonestAfter(s: State)
    requires Inv(s) && s.queue != [] && s.queue[0].Finished()
    ensures Honest(Complete(s, Ok))
  {
    if !s.canceled {
      FinishedIffAcked(s);
    } else {
      EmptyWhenFinished(s);
    }
    hide InvStream, Flatten, Req.Valid, Honest, EndOf;
    var c := Callback(HeadId(s), Ok, s.acked);
    HonestSnoc(s, c);
    HonestLater(s.(callbacks := s.callbacks + [c]), Complete(s, Ok));
  }

  /** After a cancellation only empty requests can be finished. */
  lemma EmptyWhenFinished(s: State)
    requires Inv(s) && s.canceled && s.queue != [] && s.queue[0].Finished()
    ensures s.submitted[|s.callbacks|] == []
  {
    assert s.queue[0].Fresh() && s.queue[0].Valid();
    assert Flatten(s.queue[0].bufs) == s.submitted[|s.callbacks| + 0];
  }

  lemma CompleteKeepsStream(s: State)
    requires ValidQueue(s.queue) && InvCallbacks(s) && InvStream(s) && s.queue != [] && s.queue[0].Finished()
    ensures InvStream(Complete(s, Ok))
  {
    var m, q := |s.callbacks|, s.queue;
    assert s.submitted[..m + 1] == s.submitted[..m] + [s.submitted[m]];
    FlattenSnoc(s.submitted[..m], s.submitted[m]);
    assert SentPart(q[0]) == s.submitted[m];
    hide Flatten, Req.Valid;
    assert q[1..] == Complete(s, Ok).queue;
    assert InOrder(q[1..]) && AckedInOrder(q[1..]);
  }

  lemma CompleteKeepsCallbacks(s: State, status: Status)
    requires ValidQueue(s.queue) && InvCallbacks(s) && s.queue != []
    ensures ValidQueue(Complete(s, status).queue) && InvCallbacks(Complete(s, status))
  {
    hide Flatten, Req.Valid;
  }

  lemma CompleteKeepsInv(s: State)
    requires Inv(s) && s.queue != [] && s.queue[0].Finished()
    ensures Inv(Complete(s, Ok))
  {
    HonestAfter(s);
    CompleteKeepsCallbacks(s, Ok);
    hide Honest, Flatten, Req.Valid;
    if !s.canceled {
      CompleteKeepsStream(s);
    }
    hide InvStream;
  }

  lemma {:induction false} ReapKeepsInv(s: State, writes: seq<seq<Buffers>>)
    requires Inv(s)
    requires forall i :: 0 <= i < |writes| ==> WritableAll(writes[i])
    ensures Inv(Reap(s, writes))
    decreases |s.queue| + TotalWrites(writes)
  {
    hide Inv;
    if s.queue != [] && s.queue[0].Finished() {
      var ws := if writes == [] then [] else writes[0];
      CompleteKeepsInv(s);
      SubmitAllKeepsInv(Complete(s, Ok), ws);
      var s' := SubmitAll(Complete(s, Ok), ws);
      if |s.queue| > 1 {
        ReapKeepsInv(s', if writes == [] then [] else writes[1..]);
      }
    }
  }

  /** The part of the invariant that holds while requests are being canceled. */
  predicate InvCanceling(s: State) {
    ValidQueue(s.queue) && InvCallbacks(s) && s.handed <= Flatten(s.submitted) && Honest(s)
  }

  lemma {:induction false} CancelAllKeepsInv(s: State)
    requires InvCanceling(s)
    ensures var s' := CancelAll(s);
            && InvCanceling(s') && s'.queue == [] && s'.closed == s.closed
            && (s.queue != [] ==> s'.canceled)
    decreases |s.queue|
  {
    if s.queue != [] {
      CancelOneKeepsInv(s);
      hide InvCanceling;
      CancelAllKeepsInv(Complete(s, Canceled).(canceled := true));
    }
  }

  lemma CancelOneKeepsInv(s: State)
    requires InvCanceling(s) && s.queue != []
    ensures InvCanceling(Complete(s, Canceled).(canceled := true))
  {
    CompleteKeepsCallbacks(s, Canceled);
    hide Flatten, Honest, Req.Valid;
    var c := Callback(HeadId(s), Canceled, s.acked);
    HonestSnoc(s, c);
    HonestLater(s.(callbacks := s.callbacks + [c], canceled := true), Complete(s, Canceled).(canceled := true));
  }

  lemma CancelKeepsInv(s: State)
    requires Inv(s) && s.closed
    ensures Inv(CancelAll(s))
  {
    CancelAllKeepsInv(s);
  }

  lemma FillKeepsInv(s: State, tcp: Tcp)
    requires Inv(s) && !s.closed
    ensures ValidQueue(s.queue) && InOrder(s.queue)
    ensures var f := Fill(s.queue, tcp); Inv(s.(queue := f.queue, handed := s.handed + f.chunk))
  {
    hide HandedOf, Pending, Flatten, FillFrom, FirstUnsent;
    var f := Fill(s.queue, tcp);
    var m := |s.callbacks|;
    FillFromConserves(s.queue, FirstUnsent(s.queue), tcp);
    HandedIsPrefix(f.queue, s.submitted[m..]);
    FlattenSplit(s.submitted, m);
    HonestLater(s, s.(queue := f.queue, handed := s.handed + f.chunk));
  }

  lemma AckKeepsInv(s: State, len: nat)
    requires Inv(s) && Allowed(s, Ack(len))
    ensures len <= Pending(s.queue)
    ensures Inv(s.(queue := Spread(s.queue, len), acked := s.acked + len))
  {
    hide HandedOf, Pending, Flatten;
    SpreadConserves(s.queue, len);
    HonestLater(s, s.(queue := Spread(s.queue, len), acked := s.acked + len));
  }

  lemma StepKeepsInv(s: State, e: Event)
    requires Inv(s) && Allowed(s, e)
    ensures Inv(Step(s, e))
  {
    match e
    case Write(bufs) => SubmitKeepsInv(s, bufs);
    case Ack(len) => AckKeepsInv(s, len);
    case Close => HonestLater(s, s.(closed := true));
    case Wake(tcp, writes) =>
      ReapKeepsInv(s, writes);
      var reaped := Reap(s, writes);
      if reaped.closed {
        CancelKeepsInv(reaped);
      } else {
        FillKeepsInv(reaped, tcp);
      }
  }

  // ------------------------------------------------------------- whole runs

  predicate AllowedRun(s: State, run: seq<Event>)
    requires Inv(s)
    decreases |run|
  {
    run == [] || (Allowed(s, run[0]) && (StepKeepsInv(s, run[0]); AllowedRun(Step(s, run[0]), run[1..])))
  }

  function After(s: State, run: seq<Event>): State
    requires Inv(s) && AllowedRun(s, run)
    decreases |run|
  {
    if run == [] then s else (StepKeepsInv(s, run[0]); After(Step(s, run[0]), run[1..]))
  }

  lemma {:induction false} RunKeepsInv(s: State, run: seq<Event>)
    requires Inv(s) && AllowedRun(s, run)
    ensures Inv(After(s, run))
    decreases |run|
  {
    if run != [] {
      StepKeepsInv(s, run[0]);
      RunKeepsInv(Step(s, run[0]), run[1..]);
    }
  }

  /**
   Over every run: TCP has a prefix of all requests concatenated in order; until
   a cancellation the pending bytes are those handed over and not acknowledged;
   callbacks come once per request, in order; and a request is reported as
   written only when all bytes up to its end have been acknowledged, unless it
   is an empty one submitted after a cancellation.
   */
  lemma {:induction false} RunIsFifo(run: seq<Event>)
    requires AllowedRun(INIT, run)
    ensures Fifo(After(INIT, run))
  {
    hide After, AllowedRun, Inv, Fifo, Flatten;
    InitInv();
    RunKeepsInv(INIT, run);
    InvIsFifo(After(INIT, run));
  }

  predicate Fifo(s: State) {
    && s.handed <= Flatten(s.submitted)
    && (!s.canceled ==> Pending(s.queue) == |s.handed| - s.acked)
    && |s.callbacks| + |s.queue| == |s.submitted|
    && (forall i :: 0 <= i < |s.callbacks| ==> s.callbacks[i].id == i)
    && (forall i :: 0 <= i < |s.callbacks| && s.callbacks[i].status == Ok ==>
          || EndOf(s.submitted, i) <= s.callbacks[i].ackedBy <= s.acked
          || (s.submitted[i] == [] && CanceledBefore(s.callbacks, i)))
  }

  lemma InvIsFifo(s: State)
    requires Inv(s)
    ensures Fifo(s)
  {
    hide EndOf, ValidQueue, Flatten, Pending;
    forall i | 0 <= i < |s.callbacks| && s.callbacks[i].status == Ok
      ensures EndOf(s.submitted, i) <= s.callbacks[i].ackedBy <= s.acked
           || (s.submitted[i] == [] && CanceledBefore(s.callbacks, i))
    {
      assert Truthful(s, i);
    }
  }

  /** The exception is real: once bytes have been canceled, an empty request is still reported as written. */
  lemma EmptyAfterCancel(s: State, empty: Buffers)
    requires Inv(s) && s.canceled && s.queue == [] && s.acked < |Flatten(s.submitted)|
    requires empty == [[]]
    ensures var s' := Reap(Submit(s, empty), []);
            && s'.callbacks == s.callbacks + [Callback(|s.callbacks|, Ok, s.acked)]
            && |s.callbacks| < |s'.submitted| && s.acked < EndOf(s'.submitted, |s.callbacks|)
  {
    assert Flatten(empty) == [];
    var s1 := Submit(s, empty);
    assert s1.queue == [NewReq(empty)] && |s1.submitted| == |s.callbacks| + 1;
    FlattenSnoc(s.submitted, Flatten(empty));
    hide Flatten, Inv;
    assert s1.submitted[..|s.callbacks| + 1] == s1.submitted;
    assert Reap(s1, []) == SubmitAll(Complete(s1, Ok), []) == Complete(s1, Ok);
  }

  /** And such states are reached: a request is submitted, and the connection closes before anything is sent. */
  lemma {:induction false} CanceledRun(tcp: Tcp, bufs: Buffers)
    requires Writable(bufs) && Flatten(bufs) != []
    ensures var run := [Write(bufs), Close, Wake(tcp, [])];
            && AllowedRun(INIT, run)
            && var s := After(INIT, run);
               Inv(s) && s.canceled && s.queue == [] && s.acked < |Flatten(s.submitted)|
  {
    hide Inv, Flatten, Step, Writable, NewReq, Allowed, After, AllowedRun;
    var s1 := Submit(INIT, bufs);
    var s2, wake := s1.(closed := true), Wake(tcp, []);
    SubmitThenClose(bufs, tcp);
    ClosedWake(s2, bufs, tcp);
    hide Submit;
    assert [wake] + [] == [wake] && [Close] + [wake] == [Close, wake];
    assert [Write(bufs)] + [Close, wake] == [Write(bufs), Close, wake];
    RunNothing(Step(s2, wake));
    RunStep(s2, wake, []);
    RunStep(s1, Close, [wake]);
    RunStep(INIT, Write(bufs), [Close, wake]);
  }

  lemma RunNothing(s: State)
    requires Inv(s)
    ensures AllowedRun(s, []) && After(s, []) == s
  {
  }

  lemma {:induction false} SubmitThenClose(bufs: Buffers, tcp: Tcp)
    requires Writable(bufs)
    ensures var s1 := Submit(INIT, bufs);
            var s2 := s1.(closed := true);
            && Inv(INIT) && Inv(s1) && Inv(s2)
            && Allowed(INIT, Write(bufs)) && Allowed(s1, Close) && Allowed(s2, Wake(tcp, []))
            && Step(INIT, Write(bufs)) == s1 && Step(s1, Close) == s2 && Inv(Step(s2, Wake(tcp, [])))
  {
    InitInv();
    hide Inv, Writable, NewReq;
    StepKeepsInv(INIT, Write(bufs));
    var s1 := Submit(INIT, bufs);
    StepKeepsInv(s1, Close);
    StepKeepsInv(s1.(closed := true), Wake(tcp, []));
  }

  lemma {:induction false} RunStep(s: State, e: Event, rest: seq<Event>)
    requires Inv(s) && Allowed(s, e) && Inv(Step(s, e)) && AllowedRun(Step(s, e), rest)
    ensures AllowedRun(s, [e] + rest) && After(s, [e] + rest) == After(Step(s, e), rest)
  {
    hide Inv, Step, Allowed;
    assert ([e] + rest)[0] == e && ([e] + rest)[1..] == rest;
  }

  lemma {:induction false} ClosedWake(s: State, bufs: Buffers, tcp: Tcp)
    requires Inv(s) && Writable(bufs) && Flatten(bufs) != [] && s == Submit(INIT, bufs).(closed := true)
    ensures var s' := Step(s, Wake(tcp, []));
            s'.canceled && s'.queue == [] && s'.acked < |Flatten(s'.submitted)|
  {
    assert s.queue == [NewReq(bufs)] && !s.queue[0].Finished();
    assert Reap(s, []) == s;
    var c := Complete(s, Canceled).(canceled := true);
    assert c.queue == [] && CancelAll(c) == c && CancelAll(s) == c;
    assert s.submitted == [Flatten(bufs)];
    FlattenOne(Flatten(bufs));
  }

  lemma FlattenOne(part: seq<byte>)
    ensures Flatten([part]) == part
  {
    assert Flatten([part]) == part + Flatten([]);
  }

  // ------------------------------------------------------------ completeness

  /**
   The one way a wake-up can leave a finished request behind: the callback of
   the last queued request submits one, and that one is empty. The successor
   was read before the callback ran, so the loop does not come to it.
   */
  predicate LeavesEmpty(s: State, writes: seq<seq<Buffers>>)
    decreases |s.queue| + TotalWrites(writes)
  {
    s.queue != [] && s.queue[0].Finished() &&
    var ws := if writes == [] then [] else writes[0];
    if |s.queue| == 1 then ws != [] && Flatten(ws[0]) == []
    else LeavesEmpty(SubmitAll(Complete(s, Ok), ws), if writes == [] then [] else writes[1..])
  }

  lemma {:induction false} SubmitAllAppends(s: State, ws: seq<Buffers>)
    ensures var s' := SubmitAll(s, ws);
            && s.queue <= s'.queue && s'.acked == s.acked && s'.closed == s.closed && s'.canceled == s.canceled
            && (ws != [] ==> s'.queue[|s.queue|] == NewReq(ws[0]))
    decreases |ws|
  {
    if ws != [] {
      SubmitAllAppends(Submit(s, ws[0]), ws[1..]);
    }
  }

  lemma {:induction false} ReapStops(s: State, writes: seq<seq<Buffers>>)
    requires Inv(s) && forall i :: 0 <= i < |writes| ==> WritableAll(writes[i])
    ensures var s' := Reap(s, writes);
            && (s'.queue != [] && s'.queue[0].Finished() <==> LeavesEmpty(s, writes))
            && s'.acked == s.acked && s'.closed == s.closed && s'.canceled == s.canceled
    decreases |s.queue| + TotalWrites(writes)
  {
    hide Inv;
    if s.queue != [] && s.queue[0].Finished() {
      var ws := if writes == [] then [] else writes[0];
      CompleteKeepsInv(s);
      SubmitAllKeepsInv(Complete(s, Ok), ws);
      SubmitAllAppends(Complete(s, Ok), ws);
      hide Flatten, SubmitAll;
      if |s.queue| > 1 {
        ReapStops(SubmitAll(Complete(s, Ok), ws), if writes == [] then [] else writes[1..]);
      }
    }
  }

  /**
   After every wake-up of an open connection, whatever its callbacks submit, the
   head request still waits for an acknowledgement, with the one exception of
   LeavesEmpty.
   */
  lemma WakeCompletesAcknowledged(s: State, tcp: Tcp, writes: seq<seq<Buffers>>)
    requires Inv(s) && !s.closed && Allowed(s, Wake(tcp, writes))
    ensures var s' := Step(s, Wake(tcp, writes));
            Inv(s') && (s'.queue != [] && EndOf(s'.submitted, |s'.callbacks|) <= s'.acked <==> LeavesEmpty(s, writes))
  {
    hide Reap, Fill, Flatten, Honest, InvStream, LeavesEmpty;
    ReapKeepsInv(s, writes);
    ReapStops(s, writes);
    var reaped := Reap(s, writes);
    OpenIsNotCanceled(reaped);
    FillKeepsInv(reaped, tcp);
    if reaped.queue != [] {
      FinishedIffAcked(reaped);
    }
    FillKeepsLength(reaped, tcp);
  }

  /**
   Request i is due: all bytes up to its end are acknowledged or, after a
   cancellation, it and the requests before it in the queue are empty.
   */
  predicate Due(s: State, i: nat)
    requires i < |s.submitted|
  {
    if s.canceled then forall k :: |s.callbacks| <= k <= i ==> s.submitted[k] == []
    else EndOf(s.submitted, i) <= s.acked
  }

  lemma FinishedIffDue(s: State)
    requires Inv(s) && s.queue != []
    ensures |s.callbacks| < |s.submitted| && (s.queue[0].Finished() <==> Due(s, |s.callbacks|))
  {
    if s.canceled {
      assert s.queue[0].Fresh() && s.queue[0].Valid();
      assert Flatten(s.queue[0].bufs) == s.submitted[|s.callbacks| + 0];
    } else {
      FinishedIffAcked(s);
    }
  }

  lemma DueBefore(s: State, i: nat, j: nat)
    requires |s.callbacks| <= i <= j < |s.submitted| && Due(s, j)
    ensures Due(s, i)
  {
    FlattenSplit(s.submitted[..j + 1], i + 1);
    assert s.submitted[..j + 1][..i + 1] == s.submitted[..i + 1];
  }

  /** Completing a request that is due, and submitting others, does not change which queued requests are due. */
  lemma DueAfter(s: State, s1: State, i: nat)
    requires |s.callbacks| < i < |s.submitted| && Due(s, |s.callbacks|)
    requires s.submitted <= s1.submitted && |s1.callbacks| == |s.callbacks| + 1
    requires s1.acked == s.acked && s1.canceled == s.canceled
    ensures Due(s1, i) <==> Due(s, i)
  {
    assert s1.submitted[..i + 1] == s.submitted[..i + 1];
    forall k | |s.callbacks| <= k <= i
      ensures s1.submitted[k] == s.submitted[k]
    {
    }
  }

  lemma {:induction false} SubmitAllKeeps(s: State, ws: seq<Buffers>)
    ensures var s' := SubmitAll(s, ws);
            && s.submitted <= s'.submitted && s'.callbacks == s.callbacks && s'.acked == s.acked
            && s'.closed == s.closed && s'.canceled == s.canceled
    decreases |ws|
  {
    if ws != [] {
      SubmitAllKeeps(Submit(s, ws[0]), ws[1..]);
    }
  }

  /** Callback i has come and reported success. */
  predicate ReportedOk(callbacks: seq<Callback>, i: nat) {
    i < |callbacks| && callbacks[i].status == Ok
  }

  /** The completion loop reports exactly the queued requests that are due. */
  lemma {:induction false} ReapReports(s: State, writes: seq<seq<Buffers>>, i: nat)
    requires Inv(s) && forall k :: 0 <= k < |writes| ==> WritableAll(writes[k])
    requires |s.callbacks| <= i < |s.submitted|
    ensures var s' := Reap(s, writes);
            && s.submitted <= s'.submitted && s.callbacks <= s'.callbacks
            && (if Due(s, i) then ReportedOk(s'.callbacks, i) else |s'.callbacks| <= i)
    decreases |s.queue| + TotalWrites(writes)
  {
    hide Due, Flatten, Inv, SubmitAll, Submit, WritableAll;
    QueueIsRest(s);
    FinishedIffDue(s);
    var m := |s.callbacks|;
    if s.queue[0].Finished() {
      var ws := if writes == [] then [] else writes[0];
      CompleteKeepsInv(s);
      SubmitAllKeepsInv(Complete(s, Ok), ws);
      SubmitAllKeeps(Complete(s, Ok), ws);
      var s1 := SubmitAll(Complete(s, Ok), ws);
      assert ReportedOk(s1.callbacks, m);
      if |s.queue| > 1 {
        var j := if i == m then m + 1 else i;
        ReapReports(s1, if writes == [] then [] else writes[1..], j);
        DueAfter(s, s1, j);
      }
    } else if Due(s, i) {
      DueBefore(s, m, i);
    }
  }

  lemma QueueIsRest(s: State)
    requires Inv(s)
    ensures |s.queue| + |s.callbacks| == |s.submitted|
  {
  }

  /** The others are called back as canceled. */
  lemma {:induction false} CancelAllReports(s: State)
    ensures var s' := CancelAll(s);
            && |s'.callbacks| == |s.callbacks| + |s.queue| && s.callbacks <= s'.callbacks
            && forall k :: |s.callbacks| <= k < |s'.callbacks| ==> s'.callbacks[k].status == Canceled
    decreases |s.queue|
  {
    if s.queue != [] {
      CancelAllReports(Complete(s, Canceled).(canceled := true));
    }
  }

  /**
   What a wake-up reports, open or closed, whatever its callbacks submit: of the
   requests queued before it, exactly those that are due are reported as written,
   and a closed client calls back all the others as canceled.
   */
  lemma {:induction false} WakeReports(s: State, tcp: Tcp, writes: seq<seq<Buffers>>, i: nat)
    requires Inv(s) && Allowed(s, Wake(tcp, writes)) && |s.callbacks| <= i < |s.submitted|
    ensures var s' := Step(s, Wake(tcp, writes));
            if Due(s, i) then ReportedOk(s'.callbacks, i)
            else if s.closed then i < |s'.callbacks| && s'.callbacks[i].status == Canceled
            else |s'.callbacks| <= i
  {
    hide Reap, Fill, Flatten, Honest, InvStream, LeavesEmpty, Due, CancelAll;
    ReapKeepsInv(s, writes);
    ReapStops(s, writes);
    ReapReports(s, writes, i);
    var reaped := Reap(s, writes);
    QueueIsRest(reaped);
    CancelAllReports(reaped);
  }

  lemma OpenIsNotCanceled(s: State)
    requires Inv(s) && !s.closed
    ensures !s.canceled
  {
  }

  lemma FillKeepsLength(s: State, tcp: Tcp)
    requires Inv(s) && !s.closed
    ensures ValidQueue(s.queue) && InOrder(s.queue) && |Fill(s.queue, tcp).queue| == |s.queue|
  {
    hide HandedOf, Pending, Flatten, FillFrom, FirstUnsent;
    FillFromConserves(s.queue, FirstUnsent(s.queue), tcp);
  }

  /** The exception is real: an empty request whose callback submits another empty one. */
  lemma EmptyRequestWaits(tcp: Tcp, empty: Buffers)
    requires empty == [[]]
    ensures var s, writes := Submit(INIT, empty), [[empty]];
            Inv(s) && !s.closed && Allowed(s, Wake(tcp, writes)) && LeavesEmpty(s, writes)
  {
    EmptyIsWritable(empty);
    InitInv();
    hide Inv, Flatten, LeavesEmpty, Writable, WritableAll, NewReq;
    SubmitKeepsInv(INIT, empty);
    EmptyIsLeft(empty);
  }

  lemma EmptyIsWritable(empty: Buffers)
    requires empty == [[]]
    ensures Flatten(empty) == [] && Writable(empty)
    ensures forall i :: 0 <= i < |[[empty]]| ==> WritableAll([[empty]][i])
  {
    assert forall i :: 0 <= i < |[[empty]]| ==> [[empty]][i] == [empty];
  }

  lemma InitInv()
    ensures Inv(INIT)
  {
  }

  lemma EmptyIsLeft(empty: Buffers)
    requires Flatten(empty) == []
    ensures LeavesEmpty(Submit(INIT, empty), [[empty]])
  {
    hide Flatten, SubmitAll;
    assert Submit(INIT, empty).queue == [NewReq(empty)];
  }

  /** Bytes not yet handed to TCP. */
  function Remaining(q: seq<Req>): nat
    requires ValidQueue(q)
  {
    if q == [] then 0 else (SentFits(q[0]); q[0].totalLen - q[0].totalSent) + Remaining(q[1..])
  }

  /** Without ERR_MEM, one buffer is written as far as the send buffer reaches. */
  lemma WriteBufExact(r: Req, tcp: Tcp)
    requires r.Valid() && r.Unsent() && tcp.outOfMemory == []
    ensures var w := WriteBuf(r, tcp);
            && |w.chunk| == Min(|r.bufs[r.sentBufs]| - r.sent, tcp.sndbuf)
            && w.tcp == tcp.Taken(|w.chunk|) && w.again == (w.tcp.sndbuf > 0)
  {
    hide Flatten;
  }

  lemma {:induction false} RemainingAt(q: seq<Req>, i: nat, r: Req, chunk: seq<byte>)
    requires ValidQueue(q) && i < |q| && Advanced(q[i], r, chunk)
    ensures ValidQueue(q[i := r]) && Remaining(q) == Remaining(q[i := r]) + |chunk|
  {
    hide Flatten;
    if i == 0 {
      assert q[0 := r][1..] == q[1..];
    } else {
      assert q[i := r][1..] == q[1..][i - 1 := r];
      RemainingAt(q[1..], i - 1, r, chunk);
    }
  }

  lemma {:induction false} NothingRemains(q: seq<Req>)
    requires ValidQueue(q) && forall k :: 0 <= k < |q| ==> !q[k].Unsent()
    ensures Remaining(q) == 0
  {
    if q != [] {
      SentFits(q[0]);
      NothingRemains(q[1..]);
    }
  }

  /** The writer is work conserving: without ERR_MEM it hands over all it has, or fills the send buffer. */
  lemma {:induction false} FillFromExact(q: seq<Req>, i: nat, tcp: Tcp)
    requires Cursor(q, i) && AckedInOrder(q) && tcp.outOfMemory == []
    ensures |FillFrom(q, i, tcp).chunk| == Min(Remaining(q), tcp.sndbuf)
    decreases |q| - i, if i < |q| then |q[i].bufs| - q[i].sentBufs else 0
  {
    if i == |q| {
      NothingRemains(q);
    } else {
      WriteBufExact(q[i], tcp);
      WriteBufAdvances(q[i], tcp);
      hide WriteBuf, Flatten, InOrder, Req.Valid, Remaining;
      WriteAtConserves(q, i, tcp);
      var w := WriteBuf(q[i], tcp);
      RemainingAt(q, i, w.req, w.chunk);
      if w.again {
        FillFromExact(q[i := w.req], if w.req.Unsent() then i else i + 1, w.tcp);
      }
    }
  }

  lemma FillIsWorkConserving(q: seq<Req>, tcp: Tcp)
    requires ValidQueue(q) && InOrder(q) && AckedInOrder(q) && tcp.outOfMemory == []
    ensures |Fill(q, tcp).chunk| == Min(Remaining(q), tcp.sndbuf)
  {
    FillFromExact(q, FirstUnsent(q), tcp);
  }

  lemma {:induction false} HandedAndRemaining(q: seq<Req>, contents: seq<seq<byte>>)
    requires ValidQueue(q) && |contents| == |q| && forall k :: 0 <= k < |q| ==> Flatten(q[k].bufs) == contents[k]
    ensures |HandedOf(q)| + Remaining(q) == |Flatten(contents)|
  {
    if q != [] {
      SentFits(q[0]);
      HandedAndRemaining(q[1..], contents[1..]);
    }
  }

  lemma StreamRemaining(s: State)
    requires Inv(s) && !s.canceled
    ensures |s.handed| + Remaining(s.queue) == |Flatten(s.submitted)|
  {
    var m := |s.callbacks|;
    HandedAndRemaining(s.queue, s.submitted[m..]);
    FlattenSplit(s.submitted, m);
    hide Flatten, HandedOf, Remaining;
  }

  lemma {:induction false} ReapKeepsHanded(s: State, writes: seq<seq<Buffers>>)
    ensures Reap(s, writes).handed == s.handed
    decreases |s.queue| + TotalWrites(writes)
  {
    hide SubmitAll;
    if s.queue != [] && s.queue[0].Finished() {
      var ws := if writes == [] then [] else writes[0];
      SubmitAllHanded(Complete(s, Ok), ws);
      if |s.queue| > 1 {
        ReapKeepsHanded(SubmitAll(Complete(s, Ok), ws), if writes == [] then [] else writes[1..]);
      }
    }
  }

  lemma {:induction false} SubmitAllHanded(s: State, ws: seq<Buffers>)
    ensures SubmitAll(s, ws).handed == s.handed
    decreases |ws|
  {
    if ws != [] {
      SubmitAllHanded(Submit(s, ws[0]), ws[1..]);
    }
  }

  /**
   A wake-up of an open connection that meets no ERR_MEM leaves TCP with as much
   of all requests in order, those its callbacks submit included, as the send
   window takes.
   */
  lemma {:induction false} WakeFillsWindow(s: State, tcp: Tcp, writes: seq<seq<Buffers>>)
    requires Inv(s) && !s.closed && Allowed(s, Wake(tcp, writes)) && tcp.outOfMemory == []
    ensures var s' := Step(s, Wake(tcp, writes));
            && |s'.handed| == Min(|Flatten(s'.submitted)|, |s.handed| + tcp.sndbuf)
            && s'.handed <= Flatten(s'.submitted)
  {
    hide Reap, Fill, Flatten, Honest, LeavesEmpty, HandedOf, Remaining;
    ReapKeepsInv(s, writes);
    ReapStops(s, writes);
    ReapKeepsHanded(s, writes);
    var reaped := Reap(s, writes);
    OpenIsNotCanceled(reaped);
    StreamRemaining(reaped);
    FillIsWorkConserving(reaped.queue, tcp);
    FillKeepsInv(reaped, tcp);
  }
}

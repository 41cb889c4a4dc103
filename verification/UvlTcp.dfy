/**
 The write side of uv_lwip/uv_lwip.c as it is written: request objects linked
 through `next` between `cur_write` and `tail_write`, and fields updated in place.
 Every method is proved to perform the corresponding step of WriteQueue.
 */
module UvlTcp {
  import opened Bytes
  import opened WriteQueue

  /** struct uvl_write. */
  class WriteReq {
    var bufs: Buffers
    var sentBufs: nat
    var sent: nat
    var pending: nat
    var totalSent: nat
    var totalLen: nat
    var next: WriteReq?

    constructor ()
      ensures next == null
    {
      next := null;
    }

    ghost function Model(): Req
      reads this
    {
      Req(bufs, sentBufs, sent, pending, totalSent, totalLen)
    }

    /** The fields uvl_write sets. */
    method Prepare(bufs: Buffers)
      modifies this
      ensures Model() == NewReq(bufs) && next == null
    {
      this.bufs := bufs;
      sent, pending, sentBufs, totalSent, totalLen := 0, 0, 0, 0, 0;
      next := null;
      Measure();
    }

    /** The loop of uvl_write that adds up the buffer lengths. */
    method Measure()
      requires totalLen == 0
      modifies `totalLen
      ensures totalLen == |Flatten(bufs)|
    {
      for i := 0 to |bufs|
        invariant totalLen == |Flatten(bufs[..i])|
      {
        BufferAt(bufs, i);
        totalLen := totalLen + |bufs[i]|;
      }
      assert bufs[..|bufs|] == bufs;
    }
  }

  /** struct uvl_tcp, with the history of the connection as ghost state. */
  class Client {
    var cur: WriteReq?
    var tail: WriteReq?
    var closed: bool
    ghost var queue: seq<WriteReq>
    ghost var model: State

    /** The requests of q are distinct and linked in order. */
    static ghost predicate Chain(q: seq<WriteReq>)
      reads q
    {
      && (forall i, j :: 0 <= i < j < |q| ==> q[i] != q[j])
      && (forall i :: 0 <= i < |q| - 1 ==> q[i].next == q[i + 1])
      && (q != [] ==> q[|q| - 1].next == null)
    }

    /** `queue` is the chain of requests from `cur`, and `tail` its end. An empty queue may leave `tail` behind. */
    ghost predicate Linked()
      reads `cur, `tail, `queue, queue
    {
      && cur == (if queue == [] then null else queue[0])
      && (queue != [] ==> tail == queue[|queue| - 1])
      && Chain(queue)
    }

    ghost predicate Represents(q: seq<Req>)
      reads `queue, queue
    {
      |q| == |queue| && forall i :: 0 <= i < |queue| ==> queue[i].Model() == q[i]
    }

    /** The i-th request, or null past the end. */
    ghost function At(i: nat): WriteReq?
      reads `queue
    {
      if i < |queue| then queue[i] else null
    }

    ghost predicate Valid()
      reads this, queue
    {
      && Linked()
      && Represents(model.queue)
      && closed == model.closed
      && Inv(model)
    }

    /** uvl_tcp_init. */
    constructor ()
      ensures Valid() && model == INIT && queue == [] && tail == null
    {
      cur, tail, closed := null, null, false;
      queue, model := [], INIT;
    }

    /** The linking part of uvl_write. */
    method Append(req: WriteReq)
      requires Linked() && req !in queue && req != tail && req.next == null
      modifies `cur, `tail, `queue, (if tail == null then {} else {tail})`next
      ensures Linked() && queue == old(queue) + [req] && tail == req
      ensures req.next == null
    {
      if tail != null {
        tail.next := req;
      }
      tail := req;
      if cur == null {
        cur := req;
      }
      queue := queue + [req];
    }

    /** uvl_write. The request must not be queued already. */
    method Write(req: WriteReq, bufs: Buffers)
      requires Valid() && Writable(bufs)
      requires req !in queue && req != tail
      modifies this, req, if tail == null then {} else {tail}
      ensures Valid()
      ensures model == Submit(old(model), bufs)
      ensures queue == old(queue) + [req] && tail == req
    {
      hide Inv, Flatten;
      req.Prepare(bufs);
      SubmitKeepsInv(model, bufs);
      Append(req);
      model := Submit(model, bufs);
    }

    /** uvl_imp_write_buf_to_tcp: the do-while loop over the current buffer of a request. */
    method WriteBufToTcp(req: WriteReq, env: Tcp) returns (again: bool, tcp: Tcp, ghost chunk: seq<byte>)
      requires req.Model().Valid() && req.Model().Unsent()
      modifies req`sent, req`sentBufs, req`pending, req`totalSent
      ensures var w := WriteBuf(old(req.Model()), env);
              req.Model() == w.req && tcp == w.tcp && again == w.again && chunk == w.chunk
    {
      hide WriteBuf, Flatten;
      ghost var start := req.Model();
      tcp, chunk := env, [];
      var buf := req.bufs[req.sentBufs];
      while true
        invariant req.Model().Valid() && req.Model().Unsent() && req.bufs[req.sentBufs] == buf
        invariant WriteBuf(start, env)
               == var w := WriteBuf(req.Model(), tcp); w.(chunk := chunk + w.chunk)
        decreases |buf| - req.sent
      {
        var n := Min(|buf| - req.sent, tcp.sndbuf);
        WriteBufStep(req.Model(), tcp);
        if n == 0 {
          break;
        }
        if tcp.Refuses() {
          tcp := tcp.Taken(0);
          return false, tcp, chunk;
        }
        chunk := chunk + buf[req.sent..req.sent + n];
        req.sent := req.sent + n;
        req.pending := req.pending + n;
        req.totalSent := req.totalSent + n;
        tcp := tcp.Taken(n);
        if req.sent >= |buf| {
          WriteBufStep(req.Model(), tcp);
          break;
        }
      }
      if tcp.sndbuf == 0 {
        again := false;
      } else {
        req.sent := 0;
        req.sentBufs := req.sentBufs + 1;
        again := true;
      }
    }

    /** The body of the loop in uvl_client_sent_func, for the i-th request of the queue. */
    method Acknowledge(req: WriteReq, left: nat, ghost i: nat, ghost q: seq<Req>)
      returns (n: nat, next: WriteReq?, ghost q': seq<Req>)
      requires Linked() && Represents(q)
      requires i < |queue| && queue[i] == req
      modifies req`pending
      ensures Linked() && Represents(q')
      ensures i < |q| && n == Min(q[i].pending, left) && q' == q[i := q[i].(pending := q[i].pending - n)]
      ensures next == At(i + 1)
    {
      n := Min(req.pending, left);
      q' := q[i := q[i].(pending := q[i].pending - n)];
      req.pending := req.pending - n;
      next := req.next;
    }

    /** uvl_imp_write_buf_to_tcp for the i-th request of the queue. */
    method WriteBufAt(req: WriteReq, env: Tcp, ghost i: nat, ghost q: seq<Req>)
      returns (again: bool, tcp: Tcp, next: WriteReq?, ghost q': seq<Req>, ghost chunk: seq<byte>)
      requires Linked() && Represents(q)
      requires i < |q| && At(i) == req && q[i].Valid() && q[i].Unsent()
      modifies req`sent, req`sentBufs, req`pending, req`totalSent
      ensures Linked() && Represents(q')
      ensures var w := WriteBuf(q[i], env);
              q' == q[i := w.req] && tcp == w.tcp && again == w.again && chunk == w.chunk
      ensures next == if again && !q'[i].Unsent() then At(i + 1) else req
    {
      hide WriteBuf, Req.Valid;
      again, tcp, chunk := WriteBufToTcp(req, env);
      q' := q[i := req.Model()];
      next := if again && req.sentBufs >= |req.bufs| then req.next else req;
    }

    /** The two loops of uvl_imp_write_to_tcp. */
    method FillFromQueue(env: Tcp, ghost start: seq<Req>) returns (ghost f: Filled)
      requires Linked() && Represents(start) && ValidQueue(start) && InOrder(start)
      modifies (set r: WriteReq | r in queue)`sent, (set r: WriteReq | r in queue)`sentBufs
      modifies (set r: WriteReq | r in queue)`pending, (set r: WriteReq | r in queue)`totalSent
      ensures Linked() && f == Fill(start, env) && Represents(f.queue)
    {
      hide Flatten, WriteBuf, FillFrom, InOrder, Req.Valid;
      ghost var q := start;
      var req := cur;
      ghost var i := 0;
      while req != null && req.sentBufs >= |req.bufs|
        invariant i <= |queue| && req == At(i)
        invariant forall k :: 0 <= k < i ==> !q[k].Unsent()
        decreases |queue| - i
      {
        req := req.next;
        i := i + 1;
      }
      FillStart(q, i, env);
      assert |q| == |queue|;
      hide Linked, Represents, Fill, Filling;
      var tcp, again := env, true;
      ghost var goal, chunk: seq<byte> := Fill(start, env), [];
      while req != null && again
        invariant Linked() && Represents(q) && |q| == |queue| && req == At(i) && i <= |q|
        invariant if again then Filling(goal, q, i, tcp, chunk) else goal == Filled(q, chunk)
        decreases again, |queue| - i, if i < |queue| then |q[i].bufs| - q[i].sentBufs else 0
      {
        FillStep(goal, q, i, tcp, chunk);
        ghost var piece;
        again, tcp, req, q, piece := WriteBufAt(req, tcp, i, q);
        chunk := chunk + piece;
        i := if again && !q[i].Unsent() then i + 1 else i;
      }
      if again {
        FillEnd(goal, q, tcp, chunk);
      }
      f := Filled(q, chunk);
    }

    /** uvl_imp_write_to_tcp. */
    method WriteToTcp(env: Tcp)
      requires Valid() && !closed
      modifies `model
      modifies (set r: WriteReq | r in queue)`sent, (set r: WriteReq | r in queue)`sentBufs
      modifies (set r: WriteReq | r in queue)`pending, (set r: WriteReq | r in queue)`totalSent
      ensures Valid() && queue == old(queue) && cur == old(cur)
      ensures var f := Fill(old(model).queue, env);
              model == old(model).(queue := f.queue, handed := old(model).handed + f.chunk)
    {
      hide Inv, Linked, Represents, Fill;
      FillKeepsInv(model, env);
      ghost var f := FillFromQueue(env, model.queue);
      model := model.(queue := f.queue, handed := model.handed + f.chunk);
    }

    /** The loop of uvl_client_sent_func: it never runs past the end of the queue. */
    method SpreadOverQueue(len: nat, ghost start: seq<Req>)
      requires Linked() && Represents(start) && len <= Pending(start)
      modifies (set r: WriteReq | r in queue)`pending
      ensures Linked() && Represents(Spread(start, len))
    {
      hide Spread, Pending, Spreading;
      ghost var goal, q := Spread(start, len), start;
      SpreadStart(q, len);
      var req, left := cur, len;
      ghost var i := 0;
      assert req == At(0) && |q| == |queue|;
      hide Linked, Represents;
      while left > 0
        invariant Linked() && Represents(q) && |q| == |queue| && req == At(i)
        invariant 0 <= left && Spreading(goal, q, i, left)
        decreases |queue| - i
      {
        SpreadStep(goal, q, i, left);
        var n;
        n, req, q := Acknowledge(req, left, i, q);
        left := left - n;
        i := i + 1;
      }
      SpreadEnd(goal, q, i);
    }

    /** uvl_client_sent_func. */
    method SentFunc(len: nat)
      requires Valid() && Allowed(model, Ack(len))
      modifies `model, (set r: WriteReq | r in queue)`pending
      ensures Valid() && queue == old(queue)
      ensures model == Step(old(model), Ack(len))
    {
      hide Inv, Linked, Represents, Spread;
      AckKeepsInv(model, len);
      SpreadOverQueue(len, model.queue);
      model := model.(queue := Spread(model.queue, len), acked := model.acked + len);
    }

    /** What a completion callback may do: submit further requests with uvl_write. */
    method RunCallback(ws: seq<Buffers>)
      requires Valid() && WritableAll(ws)
      modifies this, if tail == null then {} else {tail}
      ensures Valid() && model == SubmitAll(old(model), ws)
      ensures old(queue) <= queue && forall i :: |old(queue)| <= i < |queue| ==> fresh(queue[i])
      ensures tail == old(tail) || (tail != null && fresh(tail))
    {
      hide Inv, Linked, Represents, Submit;
      ghost var goal := SubmitAll(model, ws);
      assert ws[0..] == ws;
      for i := 0 to |ws|
        invariant Valid() && goal == SubmitAll(model, ws[i..])
        invariant old(queue) <= queue && forall i :: |old(queue)| <= i < |queue| ==> fresh(queue[i])
        invariant forall r: WriteReq <- queue :: allocated(r)
        invariant tail == old(tail) || (tail != null && fresh(tail))
      {
        assert ws[i..][1..] == ws[i + 1..];
        var req := new WriteReq();
        Write(req, ws[i]);
      }
    }

    /** client->cur_write = next, and the callback with status 0. */
    method CompleteHead() returns (next: WriteReq?)
      requires Valid() && queue != [] && queue[0].Model().Finished()
      modifies `cur, `queue, `model
      ensures Valid() && model == Complete(old(model), Ok)
      ensures queue == old(queue)[1..] && next == cur
    {
      hide Inv;
      CompleteKeepsInv(model);
      next := cur.next;
      cur := next;
      queue := queue[1..];
      model := Complete(model, Ok);
    }

    /** An empty queue has no tail. */
    method DropTail()
      requires Valid()
      modifies `tail
      ensures Valid()
    {
      if cur == null {
        tail := null;
      }
    }

    lemma HeadMatches()
      requires Valid()
      ensures |queue| == |model.queue| && cur == At(0)
      ensures queue != [] ==> queue[0].Model() == model.queue[0]
    {
      hide Inv;
    }

    /** One completion: unlink the head, run its callback, and go on with the successor read before it. */
    method CompleteOne(ws: seq<Buffers>) returns (next: WriteReq?)
      requires Valid() && queue != [] && queue[0].Model().Finished() && WritableAll(ws)
      modifies this, (set r: WriteReq | r in queue), if tail == null then {} else {tail}
      ensures Valid() && model == SubmitAll(Complete(old(model), Ok), ws)
      ensures (next != null) == (|old(queue)| > 1)
      ensures next != null ==> queue != [] && next == queue[0]
      ensures forall r: WriteReq <- queue :: r in old(queue) || fresh(r)
      ensures tail == old(tail) || (tail != null && fresh(tail))
    {
      hide Inv, Represents, Chain;
      next := CompleteHead();
      RunCallback(ws);
    }

    /** The completion loop of uvl_async_tcp_write_cb. */
    method ReapQueue(writes: seq<seq<Buffers>>)
      requires Valid() && forall i :: 0 <= i < |writes| ==> WritableAll(writes[i])
      modifies this, (set r: WriteReq | r in queue), if tail == null then {} else {tail}
      ensures Valid() && model == Reap(old(model), writes)
      ensures forall r: WriteReq <- queue :: r in old(queue) || fresh(r)
    {
      hide Inv, Reap, Linked, Represents, Complete, SubmitAll;
      HeadMatches();
      var req := cur;
      ghost var goal := Reap(model, writes);
      var rest := writes;
      if cur == null {
        ReapEmpty(model, writes);
      }
      while req != null && req.totalSent == req.totalLen && req.pending == 0
        invariant Valid() && Reaping(goal, model, rest, req != null)
        invariant req != null ==> queue != [] && req == queue[0]
        invariant forall i :: 0 <= i < |rest| ==> WritableAll(rest[i])
        invariant forall r: WriteReq <- queue :: r in old(queue) || fresh(r)
        invariant tail != null ==> tail in old(queue) || tail == old(tail) || fresh(tail)
        decreases |model.queue| + TotalWrites(rest), req != null
      {
        HeadMatches();
        ReapStep(goal, model, rest);
        var ws := if rest == [] then [] else rest[0];
        rest := if rest == [] then [] else rest[1..];
        req := CompleteOne(ws);
      }
      HeadMatches();
      if req != null {
        ReapStep(goal, model, rest);
      }
      DropTail();
    }

    /** uvl_cancel_reqs: every request still queued is called back with UV_ECANCELED. */
    method CancelReqs()
      requires Valid() && closed
      modifies `cur, `tail, `queue, `model
      ensures Valid() && model == CancelAll(old(model)) && queue == []
    {
      hide Inv;
      CancelKeepsInv(model);
      ghost var goal := CancelAll(model);
      var req := cur;
      ghost var i, s := 0, model;
      while req != null
        invariant i <= |queue| && req == At(i) && queue == old(queue) && |s.queue| == |queue| - i
        invariant model == old(model) && Linked() && goal == CancelAll(s) && s.closed
        decreases |queue| - i
      {
        s := Complete(s, Canceled).(canceled := true);
        req := req.next;
        i := i + 1;
      }
      cur, tail := null, null;
      queue, model := [], s;
    }

    /** uvl_client_freed: the connection is gone. */
    method Close()
      requires Valid()
      modifies `closed, `model
      ensures Valid() && model == Step(old(model), Event.Close)
    {
      StepKeepsInv(model, Event.Close);
      closed := true;
      model := model.(closed := true);
    }

    /** uvl_async_tcp_write_cb. */
    method AsyncWriteCb(env: Tcp, writes: seq<seq<Buffers>>)
      requires Valid() && Allowed(model, Wake(env, writes))
      modifies this, (set r: WriteReq | r in queue), if tail == null then {} else {tail}
      ensures Valid() && model == Step(old(model), Wake(env, writes))
      ensures forall i :: |old(model).callbacks| <= i < |old(model).submitted| ==>
                if Due(old(model), i) then ReportedOk(model.callbacks, i)
                else if old(closed) then i < |model.callbacks| && model.callbacks[i].status == Canceled
                else |model.callbacks| <= i
    {
      hide Due, ReportedOk;
      forall i | |model.callbacks| <= i < |model.submitted| {
        WakeReports(model, env, writes, i);
      }
      hide Inv, Reap, CancelAll, Fill;
      ReapQueue(writes);
      if closed {
        CancelReqs();
        return;
      }
      FillOfEmpty(env);
      if cur != null {
        WriteToTcp(env);
      }
    }
  }
}

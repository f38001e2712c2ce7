/**
 * The RTSP client of src/rtsp/mod.rs as one sequential object: the
 * sequence counter, the table of requests waiting for their response, the
 * bytes written to the connection, and the listener's reader. The
 * listener task becomes three events, one per thing it waits for: a read
 * of at most 128 bytes, a failed read, and the `read_exact` of the rest of
 * a body.
 */
module RtspClient {
  import opened Wrappers
  import opened Text
  import Numbers
  import Utf8
  import opened Rtsp
  import opened Frames

  /** `write_all` failing; `request` hands the error back with `?`. */
  datatype IoError = WriteFailed

  /** The sequence number a response is routed by: its `CSeq` header read as a `usize`. */
  function RouteKey(headers: Headers): (r: Option<nat>)
    ensures r.Some? ==> CSEQ in headers && r.value < Numbers.Pow2(64)
    ensures CSEQ !in headers ==> r.None?
  {
    if CSEQ in headers then Numbers.ParseUnsigned(headers[CSEQ], 10, 64) else Option.None
  }

  /** A response that echoes a normalised request's headers is routed to that request. */
  lemma RouteKeyOfNormalized(h: Headers, contentLength: nat, cseq: nat)
    requires cseq < Numbers.Pow2(64)
    ensures RouteKey(NormalizedHeaders(h, contentLength, cseq)) == Option.Some(cseq)
  {
    Numbers.DecimalRoundTrip(cseq);
  }

  /**
   * The framing both directions share agrees with itself: a normalised
   * request with a non-empty body, scanned by the response reader, gives
   * the placeholder status, exactly its headers, the body bytes behind the
   * blank line as the response body, and its own sequence number as the
   * routing key.
   */
  lemma FrameReadBack(m: Method, path: Bytes, h: Headers, order: seq<Bytes>, body: Bytes, cseq: nat, codec: PlistCodec)
    requires 0 < |body| < Numbers.Pow2(64) && cseq < Numbers.Pow2(64)
    requires Find(RequestLine(m, path), CRLF).None?
    requires WellFormedHeaders(NormalizedHeaders(h, |body|, cseq))
    requires IsOrderOf(order, NormalizedHeaders(h, |body|, cseq))
    ensures var n := NormalizedHeaders(h, |body|, cseq);
      && ScanLines(NO_STATUS, map[], Frame(m, path, n, order, body)) == Scanned(PLACEHOLDER_STATUS, n, true, body)
      && Plan(n) == Success(Exactly(|body|))
      && Respond(ReaderState(PLACEHOLDER_STATUS, n, body, [], true), [], codec)
         == Success(Response(PLACEHOLDER_STATUS, n, Classify(n, body, codec)))
      && RouteKey(n) == Option.Some(cseq)
  {
    var n := NormalizedHeaders(h, |body|, cseq);
    ParseBack(RequestLine(m, path), n, order, body);
    PlanOfNormalized(h, |body|, cseq);
    RespondBuffered(ReaderState(PLACEHOLDER_STATUS, n, body, [], true), body, codec);
    RouteKeyOfNormalized(h, |body|, cseq);
  }

  /** The pending request a response goes to: the one its `CSeq` names, if that one is waiting. */
  function Route(pending: set<nat>, resp: Response): (r: Option<nat>)
    ensures r.Some? <==> RouteKey(resp.headers).Some? && RouteKey(resp.headers).value in pending
    ensures r.Some? ==> r == RouteKey(resp.headers)
  {
    match RouteKey(resp.headers)
    case Some(s) => if s in pending then Option.Some(s) else Option.None
    case None => Option.None
  }

  /**
   * The routing table and the counter agree: the numbers handed out are
   * 0, 1, 2, ... in order, what is pending or delivered was handed out, a
   * delivered number is no longer pending, every delivered response carries
   * its own number as `CSeq`, and no number is delivered twice.
   */
  ghost predicate TableOk(issued: seq<nat>, nextSeq: nat, pending: set<nat>, delivered: seq<(nat, Response)>) {
    && |issued| == nextSeq
    && (forall i :: 0 <= i < |issued| ==> issued[i] == i)
    && (forall s :: s in pending ==> s < nextSeq)
    && (forall i :: 0 <= i < |delivered| ==> delivered[i].0 < nextSeq && delivered[i].0 !in pending)
    && (forall i :: 0 <= i < |delivered| ==> RouteKey(delivered[i].1.headers) == Option.Some(delivered[i].0))
    && (forall i, j :: 0 <= i < j < |delivered| ==> delivered[i].0 != delivered[j].0)
  }

  /** Taking the next number keeps the table consistent, and that number is neither pending nor delivered. */
  lemma IssueKeepsTable(issued: seq<nat>, nextSeq: nat, pending: set<nat>, delivered: seq<(nat, Response)>)
    requires TableOk(issued, nextSeq, pending, delivered)
    ensures TableOk(issued + [nextSeq], nextSeq + 1, pending, delivered)
    ensures nextSeq !in pending && forall i :: 0 <= i < |delivered| ==> delivered[i].0 != nextSeq
  {
    var issued' := issued + [nextSeq];
    assert forall i :: 0 <= i < |issued| ==> issued'[i] == issued[i];
  }

  /** Marking the number just taken as pending keeps the table consistent. */
  lemma RegisterKeepsTable(issued: seq<nat>, nextSeq: nat, pending: set<nat>, delivered: seq<(nat, Response)>, cseq: nat)
    requires TableOk(issued, nextSeq, pending, delivered) && cseq + 1 == nextSeq
    requires forall i :: 0 <= i < |delivered| ==> delivered[i].0 != cseq
    ensures TableOk(issued, nextSeq, pending + {cseq}, delivered)
  {
  }

  /** Handing a response to the pending request its `CSeq` names keeps the table consistent. */
  lemma DeliverKeepsTable(issued: seq<nat>, nextSeq: nat, pending: set<nat>, delivered: seq<(nat, Response)>, s: nat, resp: Response)
    requires TableOk(issued, nextSeq, pending, delivered)
    requires s in pending && RouteKey(resp.headers) == Option.Some(s)
    ensures TableOk(issued, nextSeq, pending - {s}, delivered + [(s, resp)])
  {
    var delivered' := delivered + [(s, resp)];
    assert forall i :: 0 <= i < |delivered| ==> delivered'[i] == delivered[i];
    assert delivered'[|delivered|] == (s, resp);
  }

  class Client {
    /** The plist codec both directions use. */
    const codec: PlistCodec
    /** The next sequence number (`seq`). */
    var nextSeq: nat
    /** The keys of `pending_seqs`: requests still waiting for their response. */
    var pending: set<nat>
    /** What was sent through the `oneshot` senders, in order: a sequence number and its response. */
    var delivered: seq<(nat, Response)>
    /** Responses that matched no pending request, which the source prints. */
    var unrouted: seq<Response>
    /** Everything written to the connection. */
    var written: Bytes
    /** The locals of the current pass of the listener's `'request` loop. */
    var reader: Reader
    /** The header block is over and the listener waits for `read_exact`. */
    var awaitingBody: bool
    /** The listener task is still running (it ends at end of stream and on every panic). */
    var listening: bool
    /** Every sequence number handed out, in order. */
    ghost var issued: seq<nat>

    /** The routing table and the counter agree (`TableOk`). */
    ghost predicate TableValid()
      reads this
    {
      TableOk(issued, nextSeq, pending, delivered)
    }

    /** Between events: the table is consistent and the listener's phase matches its reader. */
    ghost predicate Valid()
      reads this, reader
    {
      && TableValid()
      && (awaitingBody ==> listening && Plan(reader.responseHeaders).Success?)
      && (listening && !awaitingBody ==> !reader.over)
    }

    /** The routing table and logs after handing `resp` on, relative to before. */
    twostate predicate Dispatched(resp: Response)
      reads this
    {
      match Route(old(pending), resp)
      case Some(s) =>
        pending == old(pending) - {s} && delivered == old(delivered) + [(s, resp)] && unrouted == old(unrouted)
      case None =>
        pending == old(pending) && delivered == old(delivered) && unrouted == old(unrouted) + [resp]
    }

    twostate predicate TableUnchanged()
      reads this
    {
      pending == old(pending) && delivered == old(delivered) && unrouted == old(unrouted)
    }

    /**
     * What ending the header phase with reader state `st` does (mod.rs
     * 162-177): a bad `Content-Length` ends the listener; no body, or a body
     * already all buffered, makes the response at once and starts the next
     * pass afresh; otherwise the listener waits for the missing bytes.
     */
    twostate predicate FinishedFrom(st: ReaderState)
      reads this, reader
    {
      match Plan(st.headers)
      case Failure(_) => !listening && TableUnchanged()
      case Success(plan) =>
        listening &&
        if Missing(Buffered(st), plan) == 0 then
          && !awaitingBody && reader.State() == Fresh
          && Dispatched(Respond(st, [], codec).value)
        else
          && awaitingBody && reader.State() == st && TableUnchanged()
    }

    /** `Client::connect`, once the connection is up: counter at 0, nothing pending, listener fresh. */
    constructor (codec: PlistCodec)
      ensures Valid() && fresh(reader)
      ensures this.codec == codec && nextSeq == 0 && pending == {} && delivered == [] && unrouted == []
      ensures written == [] && listening && !awaitingBody && reader.State() == Fresh
    {
      this.codec := codec;
      nextSeq := 0;
      pending := {};
      delivered := [];
      unrouted := [];
      written := [];
      reader := new Reader();
      awaitingBody := false;
      listening := true;
      issued := [];
    }

    /**
     * `Client::request`: takes the next sequence number, normalises the
     * request with it, registers it as pending and then writes the frame.
     * `order` is the order the normalised header map is iterated in, and
     * `writeOk` whether `write_all` succeeds.
     */
    method Request(req: Request, order: seq<Bytes>, writeOk: bool) returns (r: Result<nat, IoError>)
      requires Valid()
      requires IsOrderOf(order, NormalizedHeaders(req.headers, |BodyBytes(req.body, codec)|, nextSeq))
      modifies this, req
      ensures Valid()
      ensures req.headers == NormalizedHeaders(old(req.headers), |BodyBytes(req.body, codec)|, old(nextSeq))
      ensures req.verb == old(req.verb) && req.path == old(req.path) && req.body == old(req.body)
      ensures nextSeq == old(nextSeq) + 1 && issued == old(issued) + [old(nextSeq)]
      ensures pending == old(pending) + {old(nextSeq)}
      ensures delivered == old(delivered) && unrouted == old(unrouted)
      ensures writeOk ==> r == Success(old(nextSeq))
      ensures writeOk ==> written == old(written) + Frame(req.verb, req.path, req.headers, order, BodyBytes(req.body, codec))
      ensures !writeOk ==> r == Failure(WriteFailed) && written == old(written)
      ensures reader == old(reader) && listening == old(listening) && awaitingBody == old(awaitingBody)
    {
      var cseq := TakeSeq();
      var frame := Prepare(req, cseq, order, codec);
      Register(cseq);
      if !writeOk {
        return Failure(WriteFailed);
      }
      written := written + frame;
      return Success(cseq);
    }

    /** The write-locked `seq` block: the current number is taken and the counter moves on. */
    method TakeSeq() returns (cseq: nat)
      requires Valid()
      modifies this
      ensures Valid() && cseq == old(nextSeq) && nextSeq == cseq + 1 && issued == old(issued) + [cseq]
      ensures cseq !in pending && forall i :: 0 <= i < |delivered| ==> delivered[i].0 != cseq
      ensures pending == old(pending) && delivered == old(delivered) && unrouted == old(unrouted)
      ensures written == old(written) && reader == old(reader)
      ensures listening == old(listening) && awaitingBody == old(awaitingBody)
    {
      IssueKeepsTable(issued, nextSeq, pending, delivered);
      cseq := nextSeq;
      nextSeq := nextSeq + 1;
      issued := issued + [cseq];
    }

    /** `pending_seqs.insert(seq, tx)` for the number just taken. */
    method Register(cseq: nat)
      requires Valid() && cseq + 1 == nextSeq
      requires forall i :: 0 <= i < |delivered| ==> delivered[i].0 != cseq
      modifies this
      ensures Valid() && pending == old(pending) + {cseq}
      ensures nextSeq == old(nextSeq) && issued == old(issued) && delivered == old(delivered) && unrouted == old(unrouted)
      ensures written == old(written) && reader == old(reader)
      ensures listening == old(listening) && awaitingBody == old(awaitingBody)
    {
      RegisterKeepsTable(issued, nextSeq, pending, delivered, cseq);
      pending := pending + {cseq};
    }

    /** Hands a finished response to the request its `CSeq` names, or logs it (mod.rs 198-206). */
    method Dispatch(resp: Response)
      requires Valid() && !awaitingBody
      modifies this
      ensures Valid() && Dispatched(resp)
      ensures nextSeq == old(nextSeq) && issued == old(issued) && written == old(written)
      ensures reader == old(reader) && listening == old(listening) && !awaitingBody
    {
      match Route(pending, resp)
      case Some(s) =>
        DeliverKeepsTable(issued, nextSeq, pending, delivered, s, resp);
        pending := pending - {s};
        delivered := delivered + [(s, resp)];
      case None =>
        unrouted := unrouted + [resp];
    }

    /** The end of the header phase. */
    method FinishHeaders()
      requires TableValid() && listening && !awaitingBody
      modifies this, reader
      ensures Valid() && FinishedFrom(old(reader.State()))
      ensures nextSeq == old(nextSeq) && issued == old(issued) && written == old(written) && reader == old(reader)
    {
      var st := reader.State();
      match Plan(st.headers)
      case Failure(_) =>
        listening := false;
      case Success(plan) =>
        if Missing(Buffered(st), plan) == 0 {
          var resp := Respond(st, [], codec).value;
          reader.Reset();
          Dispatch(resp);
        } else {
          awaitingBody := true;
        }
    }

    /**
     * `rx.read` returning `Ok(n)` with the bytes `chunk`: end of stream when
     * empty, otherwise one step of the header reader, finishing the header
     * phase when the blank line was in it.
     */
    method OnRead(chunk: Bytes)
      requires Valid() && listening && !awaitingBody && |chunk| <= READ_BUFFER_SIZE
      modifies this, reader
      ensures Valid()
      ensures nextSeq == old(nextSeq) && issued == old(issued) && written == old(written) && reader == old(reader)
      ensures |chunk| == 0 ==> !listening && TableUnchanged()
      ensures |chunk| > 0 && Feed(old(reader.State()), chunk).Failure? ==> !listening && TableUnchanged()
      ensures |chunk| > 0 && Feed(old(reader.State()), chunk).Success? && !Feed(old(reader.State()), chunk).value.over ==>
        listening && !awaitingBody && reader.State() == Feed(old(reader.State()), chunk).value && TableUnchanged()
      ensures |chunk| > 0 && Feed(old(reader.State()), chunk).Success? && Feed(old(reader.State()), chunk).value.over ==>
        FinishedFrom(Feed(old(reader.State()), chunk).value)
    {
      if |chunk| == 0 {
        listening := false;
        return;
      }
      var ok := reader.Read(chunk);
      if !ok {
        listening := false;
        return;
      }
      if reader.over {
        FinishHeaders();
      }
    }

    /** `rx.read` failing: the read loop stops and the header phase ends with what was read. */
    method OnReadError()
      requires Valid() && listening && !awaitingBody
      modifies this, reader
      ensures Valid() && FinishedFrom(old(reader.State()))
      ensures nextSeq == old(nextSeq) && issued == old(issued) && written == old(written) && reader == old(reader)
    {
      FinishHeaders();
    }

    /**
     * `read_exact` delivering the `more` bytes the body still lacked: the
     * response is made and handed on, and the next pass starts afresh.
     */
    method OnBody(more: Bytes)
      requires Valid() && awaitingBody
      requires |more| == Missing(Buffered(reader.State()), Plan(reader.responseHeaders).value)
      modifies this, reader
      ensures Valid() && listening && !awaitingBody && reader.State() == Fresh
      ensures Dispatched(Respond(old(reader.State()), more, codec).value)
      ensures nextSeq == old(nextSeq) && issued == old(issued) && written == old(written) && reader == old(reader)
    {
      var resp := Respond(reader.State(), more, codec).value;
      reader.Reset();
      awaitingBody := false;
      Dispatch(resp);
    }
  }

  /**
   * Sequence numbers are handed out in increasing order from 0, so none is used
   * twice. This is a corollary of `issued[i] == i` in `TableOk`; the ensures of
   * `TakeSeq` are what keep that invariant.
   */
  lemma IssuedIncreasing(c: Client)
    requires c.Valid()
    ensures forall i, j :: 0 <= i < j < |c.issued| ==> c.issued[i] < c.issued[j]
  {
  }
}

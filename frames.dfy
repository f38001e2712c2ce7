/**
 * How the listener task of `Client::connect` reads one response off the
 * connection (src/rtsp/mod.rs 112-196): reads of at most 128 bytes, each
 * cut at its longest well-formed UTF-8 prefix with the rest set aside as
 * "leftover"; the text appended to the unfinished line kept from the last
 * read ("hanging"); complete lines taken one by one (the first as the
 * status line, then `name: value` headers, until a blank line); and then
 * the body, `Content-Length` bytes of it, from what was buffered plus what
 * is still missing.
 *
 * The pure functions below say what one read does to the reader's state;
 * the `Reader` class is the same step written as the source writes it.
 */
module Frames {
  import opened Wrappers
  import opened Text
  import Numbers
  import Utf8
  import opened Rtsp

  /** `response_code` before the first line has been seen. */
  const NO_STATUS: int := -1
  /** The value the first line sets `response_code` to, whatever the line says. */
  const PLACEHOLDER_STATUS: int := 9
  /** The size of the read buffer. */
  const READ_BUFFER_SIZE: nat := 128

  /** What scanning complete lines leaves: the state so far, or the line `split_once(": ")` fails on. */
  datatype Scanned =
    | Scanned(code: int, headers: Headers, over: bool, rest: Bytes)
    | Malformed(line: Bytes)

  /**
   * The inner `while parsed.contains("\r\n")` loop: each complete line is
   * the status line while no status is set, ends the header block when
   * empty, and is otherwise a header split at its first `": "`.
   */
  function ScanLines(code: int, headers: Headers, text: Bytes): (r: Scanned)
    ensures r.Scanned? ==> r.code == code || (code == NO_STATUS && r.code == PLACEHOLDER_STATUS)
    ensures r.Scanned? && r.over ==> r.code != NO_STATUS
    ensures r.Scanned? ==> headers.Keys <= r.headers.Keys
    decreases |text|
  {
    match SplitOnce(text, CRLF)
    case None => Scanned(code, headers, false, text)
    case Some((line, rest)) =>
      if code == NO_STATUS then ScanLines(PLACEHOLDER_STATUS, headers, rest)
      else if |line| == 0 then Scanned(code, headers, true, rest)
      else match SplitOnce(line, COLON_SP)
        case None => Malformed(line)
        case Some((name, value)) => ScanLines(code, headers[name := value], rest)
  }

  /**
   * Scanning is incremental: appending bytes to the text does not change
   * the lines already complete, and the remainder is scanned on from there.
   */
  lemma {:induction false} ScanAppend(code: int, headers: Headers, t: Bytes, u: Bytes)
    ensures match ScanLines(code, headers, t)
      case Malformed(line) => ScanLines(code, headers, t + u) == Malformed(line)
      case Scanned(c, h, over, rest) =>
        if over then ScanLines(code, headers, t + u) == Scanned(c, h, true, rest + u)
        else ScanLines(code, headers, t + u) == ScanLines(c, h, rest + u)
    decreases |t|
  {
    match SplitOnce(t, CRLF)
    case None =>
    case Some((line, rest)) =>
      SplitOnceAppend(t, u, CRLF);
      if code == NO_STATUS {
        ScanAppend(PLACEHOLDER_STATUS, headers, rest, u);
      } else if |line| > 0 {
        match SplitOnce(line, COLON_SP)
        case None =>
        case Some((name, value)) =>
          ScanAppend(code, headers[name := value], rest, u);
      }
  }

  /**
   * Scanning consumes every complete line it can: what remains is a suffix
   * of the text, and holds no line break unless the header block ended.
   */
  lemma {:induction false} ScanLinesRest(code: int, headers: Headers, text: Bytes)
    ensures var r := ScanLines(code, headers, text);
      r.Scanned? ==> EndsWith(text, r.rest) && (r.over || Find(r.rest, CRLF).None?)
    decreases |text|
  {
    match SplitOnce(text, CRLF)
    case None =>
      assert text[|text| - |text|..] == text;
    case Some((line, rest)) =>
      assert EndsWith(text, rest) by {
        assert text == line + CRLF + rest;
        assert text[|text| - |rest|..] == rest;
      }
      if code == NO_STATUS {
        ScanLinesRest(PLACEHOLDER_STATUS, headers, rest);
        var r := ScanLines(PLACEHOLDER_STATUS, headers, rest);
        if r.Scanned? {
          EndsWithTrans(text, rest, r.rest);
        }
      } else if |line| > 0 {
        match SplitOnce(line, COLON_SP)
        case None =>
        case Some((name, value)) =>
          ScanLinesRest(code, headers[name := value], rest);
          var r := ScanLines(code, headers[name := value], rest);
          if r.Scanned? {
            EndsWithTrans(text, rest, r.rest);
          }
      }
  }

  /** The locals of one pass of the `'request` loop. */
  datatype ReaderState = ReaderState(code: int, headers: Headers, hanging: Bytes, leftover: Bytes, over: bool)

  /** The state each pass of the `'request` loop starts from. */
  const Fresh: ReaderState := ReaderState(NO_STATUS, map[], [], [], false)

  /** Where the listener task panics: a header line without `": "`, or a `Content-Length` that is not a `usize`. */
  datatype ReadFailure = MalformedHeader(line: Bytes) | BadContentLength(text: Bytes)

  /** One successful read of `chunk` while the header block is still open. */
  function Feed(st: ReaderState, chunk: Bytes): (r: Result<ReaderState, ReadFailure>)
    requires !st.over
    ensures r.Success? ==> r.value.leftover == st.leftover + chunk[Utf8.ValidUpTo(chunk)..]
    ensures r.Success? && r.value.over ==> r.value.code != NO_STATUS
  {
    var valid := Utf8.ValidUpTo(chunk);
    Settle(ScanLines(st.code, st.headers, st.hanging + chunk[..valid]), st.leftover + chunk[valid..])
  }

  /** The state a read leaves, from what scanning its text gave and the bytes set aside so far. */
  function Settle(s: Scanned, leftover: Bytes): Result<ReaderState, ReadFailure> {
    match s
    case Malformed(line) => Failure(MalformedHeader(line))
    case Scanned(code, headers, over, rest) => Success(ReaderState(code, headers, rest, leftover, over))
  }

  /** Reads `chunks` in turn until the header block is over or a line is malformed. */
  function FeedAll(st: ReaderState, chunks: seq<Bytes>): (r: Result<ReaderState, ReadFailure>)
    ensures r.Success? ==> st.leftover <= r.value.leftover
    ensures r.Success? && r.value.over && !st.over ==> r.value.code != NO_STATUS
    decreases |chunks|
  {
    if |chunks| == 0 || st.over then Success(st)
    else match Feed(st, chunks[0])
      case Failure(e) => Failure(e)
      case Success(next) => FeedAll(next, chunks[1..])
  }

  function Concat(chunks: seq<Bytes>): Bytes
    decreases |chunks|
  {
    if |chunks| == 0 then [] else chunks[0] + Concat(chunks[1..])
  }

  /** A read of well-formed text sets nothing aside. */
  lemma FeedValid(st: ReaderState, a: Bytes)
    requires !st.over && Utf8.Valid(a)
    ensures Feed(st, a) == Settle(ScanLines(st.code, st.headers, st.hanging + a), st.leftover)
  {
    assert a[..Utf8.ValidUpTo(a)] == a;
    assert st.leftover + a[Utf8.ValidUpTo(a)..] == st.leftover;
  }

  /** A read of well-formed text followed by more bytes is checked from where that text ends. */
  lemma FeedAfterValid(st: ReaderState, a: Bytes, b: Bytes)
    requires !st.over && Utf8.Valid(a)
    ensures var vb := Utf8.ValidUpTo(b);
      Feed(st, a + b) == Settle(ScanLines(st.code, st.headers, (st.hanging + a) + b[..vb]), st.leftover + b[vb..])
  {
    var vb := Utf8.ValidUpTo(b);
    var v := Utf8.ValidUpTo(a + b);
    Utf8.ValidAppend(a, b);
    assert (a + b)[..v] == a + b[..vb];
    assert (a + b)[v..] == b[vb..];
    assert st.hanging + (a + b)[..v] == (st.hanging + a) + b[..vb];
  }

  /**
   * Reading well-formed text and then more bytes is reading both at once,
   * as long as the first read leaves the header block open: a line cut by
   * a read boundary is completed from the hanging text.
   */
  lemma FeedSplit(st: ReaderState, a: Bytes, b: Bytes)
    requires !st.over && Utf8.Valid(a)
    requires Feed(st, a).Success? && !Feed(st, a).value.over
    ensures Feed(Feed(st, a).value, b) == Feed(st, a + b)
  {
    var vb := Utf8.ValidUpTo(b);
    FeedValid(st, a);
    FeedAfterValid(st, a, b);
    ScanAppend(st.code, st.headers, st.hanging + a, b[..vb]);
  }

  /** If a read of `a + b` leaves the header block open, so does a read of the well-formed `a` alone. */
  lemma FeedPrefixOpen(st: ReaderState, a: Bytes, b: Bytes)
    requires !st.over && Utf8.Valid(a)
    requires Feed(st, a + b).Success? && !Feed(st, a + b).value.over
    ensures Feed(st, a).Success? && !Feed(st, a).value.over
  {
    var vb := Utf8.ValidUpTo(b);
    FeedValid(st, a);
    FeedAfterValid(st, a, b);
    ScanAppend(st.code, st.headers, st.hanging + a, b[..vb]);
  }

  /** Header names without `": "` or a line break, and values without a line break. */
  ghost predicate WellFormedHeaders(h: Headers) {
    forall k :: k in h ==> Find(k, COLON_SP).None? && Find(k, CRLF).None? && Find(h[k], CRLF).None?
  }

  /** The headers of `h` whose names `order` lists. */
  ghost function Restrict(h: Headers, order: seq<Bytes>): (r: Headers)
    ensures forall k :: k in r <==> k in h && k in order
    ensures forall k :: k in r ==> r[k] == h[k]
  {
    map k | k in h && k in order :: h[k]
  }

  /** A header line is cut at its line break, and then at the `": "` after its name. */
  lemma HeaderLineScan(name: Bytes, value: Bytes, y: Bytes)
    requires Find(name, COLON_SP).None? && Find(name, CRLF).None? && Find(value, CRLF).None?
    ensures SplitOnce(HeaderLine(name, value) + y, CRLF) == Some((name + COLON_SP + value, y))
    ensures SplitOnce(name + COLON_SP + value, COLON_SP) == Some((name, value))
  {
    assert COLON_SP == [58, 32];
    assert Find(COLON_SP, CRLF).None? by {
      assert COLON_SP[0..2][0] != CRLF[0];
      assert !OccursAt(COLON_SP, CRLF, 0);
    }
    NoPairAcross(name, COLON_SP, CRLF);
    NoPairAcross(name + COLON_SP, value, CRLF);
    var line := name + COLON_SP + value;
    SplitOnceAtFirst(line, CRLF, y);
    assert HeaderLine(name, value) + y == line + CRLF + y;
    SplitOnceAtFirst(name, COLON_SP, value);
  }

  /** Once the status is set, a header line adds its header and scanning goes on after it. */
  lemma ScanHeaderLine(code: int, acc: Headers, name: Bytes, value: Bytes, rest: Bytes)
    requires code != NO_STATUS
    requires Find(name, COLON_SP).None? && Find(name, CRLF).None? && Find(value, CRLF).None?
    ensures ScanLines(code, acc, HeaderLine(name, value) + rest) == ScanLines(code, acc[name := value], rest)
  {
    HeaderLineScan(name, value, rest);
  }

  /** Once the status is set, a blank line ends the header block. */
  lemma ScanBlankLine(code: int, acc: Headers, y: Bytes)
    requires code != NO_STATUS
    ensures ScanLines(code, acc, CRLF + y) == Scanned(code, acc, true, y)
  {
    SplitOnceAtFirst([], CRLF, y);
    assert [] + CRLF + y == CRLF + y;
  }

  /**
   * Header lines followed by a blank line are read back into the headers
   * they were written from, on top of those already read.
   */
  lemma {:induction false} HeaderLinesScan(code: int, acc: Headers, h: Headers, order: seq<Bytes>, y: Bytes)
    requires code != NO_STATUS && WellFormedHeaders(h)
    requires forall k :: k in order ==> k in h
    ensures ScanLines(code, acc, HeaderLines(h, order) + CRLF + y) == Scanned(code, acc + Restrict(h, order), true, y)
    decreases |order|
  {
    if |order| == 0 {
      ScanBlankLine(code, acc, y);
      assert HeaderLines(h, order) + CRLF + y == CRLF + y;
      assert Restrict(h, order) == map[];
      assert acc + map[] == acc;
    } else {
      var name := order[0];
      var value := h[name];
      var rest := HeaderLines(h, order[1..]) + CRLF + y;
      assert HeaderLines(h, order) + CRLF + y == HeaderLine(name, value) + rest;
      ScanHeaderLine(code, acc, name, value, rest);
      HeaderLinesScan(code, acc[name := value], h, order[1..], y);
      RestrictCons(acc, h, order);
    }
  }

  lemma RestrictCons(acc: Headers, h: Headers, order: seq<Bytes>)
    requires |order| > 0 && order[0] in h
    ensures acc[order[0] := h[order[0]]] + Restrict(h, order[1..]) == acc + Restrict(h, order)
  {
    var left := acc[order[0] := h[order[0]]] + Restrict(h, order[1..]);
    var right := acc + Restrict(h, order);
    assert forall k :: k in order <==> k == order[0] || k in order[1..];
    assert left.Keys == right.Keys;
  }

  /** The first complete line, whatever it says, only sets the placeholder status. */
  lemma ScanStatusLine(firstLine: Bytes, acc: Headers, rest: Bytes)
    requires Find(firstLine, CRLF).None?
    ensures ScanLines(NO_STATUS, acc, firstLine + CRLF + rest) == ScanLines(PLACEHOLDER_STATUS, acc, rest)
  {
    SplitOnceAtFirst(firstLine, CRLF, rest);
  }

  lemma RestrictAll(h: Headers, order: seq<Bytes>)
    requires IsOrderOf(order, h)
    ensures map[] + Restrict(h, order) == h
  {
  }

  /**
   * A message head (first line, header lines, blank line) is read back from
   * a fresh state into the placeholder status and exactly the headers it was
   * written from, with whatever follows it left over.
   */
  lemma ParseBack(firstLine: Bytes, h: Headers, order: seq<Bytes>, y: Bytes)
    requires Find(firstLine, CRLF).None? && WellFormedHeaders(h) && IsOrderOf(order, h)
    ensures ScanLines(NO_STATUS, map[], Head(firstLine, h, order) + y) == Scanned(PLACEHOLDER_STATUS, h, true, y)
  {
    var rest := HeaderLines(h, order) + CRLF + y;
    assert Head(firstLine, h, order) + y == firstLine + CRLF + rest;
    ScanStatusLine(firstLine, map[], rest);
    HeaderLinesScan(PLACEHOLDER_STATUS, map[], h, order, y);
    RestrictAll(h, order);
  }

  lemma {:induction false} ConcatSnoc(chunks: seq<Bytes>)
    requires |chunks| > 0
    ensures Concat(chunks) == Concat(chunks[..|chunks| - 1]) + chunks[|chunks| - 1]
    decreases |chunks|
  {
    if |chunks| > 1 {
      var rest := chunks[1..];
      assert chunks[..|chunks| - 1][0] == chunks[0];
      assert chunks[..|chunks| - 1][1..] == rest[..|rest| - 1];
      ConcatSnoc(rest);
    } else {
      assert chunks[..0] == [] && chunks[1..] == [];
    }
  }

  lemma {:induction false} ConcatValid(chunks: seq<Bytes>)
    requires forall i :: 0 <= i < |chunks| ==> Utf8.Valid(chunks[i])
    ensures Utf8.Valid(Concat(chunks))
    decreases |chunks|
  {
    if |chunks| > 0 {
      ConcatValid(chunks[1..]);
      Utf8.ValidAppend(chunks[0], Concat(chunks[1..]));
    }
  }

  /**
   * Reading chunks one by one is reading them all at once, provided every
   * chunk but the last is well-formed text and the header block is still
   * open before the last.
   */
  lemma {:induction false} FeedAllConcat(st: ReaderState, chunks: seq<Bytes>)
    requires !st.over && |chunks| > 0
    requires forall i :: 0 <= i < |chunks| - 1 ==> Utf8.Valid(chunks[i])
    requires Feed(st, Concat(chunks[..|chunks| - 1])).Success?
    requires !Feed(st, Concat(chunks[..|chunks| - 1])).value.over
    ensures FeedAll(st, chunks) == Feed(st, Concat(chunks))
    decreases |chunks|
  {
    var n := |chunks|;
    var c := chunks[0];
    var rest := chunks[1..];
    if n == 1 {
      assert Concat(chunks) == c + [] == c;
      match Feed(st, c)
      case Failure(_) =>
      case Success(next) =>
        assert rest == [];
    } else {
      var init := chunks[..n - 1];
      var between := Concat(rest[..n - 2]);
      assert init[0] == c && init[1..] == rest[..n - 2];
      assert Concat(init) == c + between;
      FeedPrefixOpen(st, c, between);
      FeedSplit(st, c, between);
      var mid := Feed(st, c).value;
      FeedAllConcat(mid, rest);
      FeedSplit(st, c, Concat(rest));
    }
  }

  /** The bytes read past the blank line: `hanging`, put back in front of `leftover` when not empty. */
  function Buffered(st: ReaderState): (r: Bytes)
    ensures r == st.hanging + st.leftover
  {
    if |st.hanging| > 0 then st.hanging + st.leftover else st.leftover
  }

  /** Text that ends the header block exactly at its end leaves it open when cut short. */
  lemma ScanPrefixOpen(code: int, acc: Headers, t: Bytes, u: Bytes)
    requires |u| > 0
    requires ScanLines(code, acc, t + u).Scanned? && ScanLines(code, acc, t + u).over
    requires ScanLines(code, acc, t + u).rest == []
    ensures ScanLines(code, acc, t).Scanned? && !ScanLines(code, acc, t).over
  {
    ScanAppend(code, acc, t, u);
  }

  /** Bytes after the blank line are left as they are. */
  lemma ScanPastEnd(code: int, acc: Headers, t: Bytes, u: Bytes)
    requires ScanLines(code, acc, t).Scanned? && ScanLines(code, acc, t).over
    requires ScanLines(code, acc, t).rest == []
    ensures ScanLines(code, acc, t + u) == ScanLines(code, acc, t).(rest := u)
  {
    ScanAppend(code, acc, t, u);
    assert [] + u == u;
  }

  /** A proper prefix of a complete, well-formed head leaves the header block open. */
  lemma FeedHeadPrefix(st: ReaderState, head: Bytes, p: Bytes)
    requires !st.over
    requires ScanLines(st.code, st.headers, st.hanging + head).Scanned?
    requires ScanLines(st.code, st.headers, st.hanging + head).over
    requires ScanLines(st.code, st.headers, st.hanging + head).rest == []
    requires Utf8.Valid(p) && |p| < |head| && head[..|p|] == p
    ensures Feed(st, p).Success? && !Feed(st, p).value.over
  {
    var u := head[|p|..];
    assert head == p + u;
    assert st.hanging + head == (st.hanging + p) + u;
    ScanPrefixOpen(st.code, st.headers, st.hanging + p, u);
    FeedValid(st, p);
  }

  /** A read holding a whole well-formed head ends the header block right after it. */
  lemma FeedHead(st: ReaderState, head: Bytes, x: Bytes)
    requires !st.over && Utf8.Valid(head)
    requires ScanLines(st.code, st.headers, st.hanging + head).Scanned?
    requires ScanLines(st.code, st.headers, st.hanging + head).over
    requires ScanLines(st.code, st.headers, st.hanging + head).rest == []
    ensures var s := ScanLines(st.code, st.headers, st.hanging + head);
      var vx := Utf8.ValidUpTo(x);
      Feed(st, head + x) == Success(ReaderState(s.code, s.headers, x[..vx], st.leftover + x[vx..], true))
  {
    var vx := Utf8.ValidUpTo(x);
    FeedAfterValid(st, head, x);
    ScanPastEnd(st.code, st.headers, st.hanging + head, x[..vx]);
  }

  /**
   * A complete head delivered over several reads, every read but the last
   * ending on a character boundary and the last one reaching past the blank
   * line, is read as if it came in one read.
   */
  lemma FeedAllHeadConcat(st: ReaderState, head: Bytes, chunks: seq<Bytes>)
    requires !st.over
    requires ScanLines(st.code, st.headers, st.hanging + head).Scanned?
    requires ScanLines(st.code, st.headers, st.hanging + head).over
    requires ScanLines(st.code, st.headers, st.hanging + head).rest == []
    requires |chunks| > 0 && forall i :: 0 <= i < |chunks| - 1 ==> Utf8.Valid(chunks[i])
    requires |Concat(chunks[..|chunks| - 1])| < |head| <= |Concat(chunks)|
    requires Concat(chunks)[..|head|] == head
    ensures FeedAll(st, chunks) == Feed(st, Concat(chunks))
  {
    var init := chunks[..|chunks| - 1];
    var p := Concat(init);
    ConcatSnoc(chunks);
    ConcatValid(init);
    assert head[..|p|] == Concat(chunks)[..|p|] == p;
    FeedHeadPrefix(st, head, p);
    FeedAllConcat(st, chunks);
  }

  /** ... and so ends the header block with what the head alone gives, keeping every byte after it. */
  lemma FeedAllHead(st: ReaderState, head: Bytes, chunks: seq<Bytes>)
    requires !st.over && Utf8.Valid(head)
    requires ScanLines(st.code, st.headers, st.hanging + head).Scanned?
    requires ScanLines(st.code, st.headers, st.hanging + head).over
    requires ScanLines(st.code, st.headers, st.hanging + head).rest == []
    requires |chunks| > 0 && forall i :: 0 <= i < |chunks| - 1 ==> Utf8.Valid(chunks[i])
    requires |Concat(chunks[..|chunks| - 1])| < |head| <= |Concat(chunks)|
    requires Concat(chunks)[..|head|] == head
    ensures var s := ScanLines(st.code, st.headers, st.hanging + head);
      var x := Concat(chunks)[|head|..];
      var vx := Utf8.ValidUpTo(x);
      FeedAll(st, chunks) == Success(ReaderState(s.code, s.headers, x[..vx], st.leftover + x[vx..], true))
  {
    FeedAllHeadConcat(st, head, chunks);
    var all := Concat(chunks);
    var x := all[|head|..];
    SliceJoin(all, |head|);
    FeedHead(st, head, x);
  }

  /**
   * From a fresh state, such a delivery leaves the placeholder status,
   * exactly the head's headers, and every byte read after the blank line
   * buffered in stream order.
   */
  lemma ReadBack(head: Bytes, h: Headers, chunks: seq<Bytes>)
    requires ScanLines(NO_STATUS, map[], head) == Scanned(PLACEHOLDER_STATUS, h, true, [])
    requires Utf8.Valid(head)
    requires |chunks| > 0 && forall i :: 0 <= i < |chunks| - 1 ==> Utf8.Valid(chunks[i])
    requires |Concat(chunks[..|chunks| - 1])| < |head| <= |Concat(chunks)|
    requires Concat(chunks)[..|head|] == head
    ensures FeedAll(Fresh, chunks).Success?
    ensures var st := FeedAll(Fresh, chunks).value;
      && st.over && st.code == PLACEHOLDER_STATUS && st.headers == h
      && Buffered(st) == Concat(chunks)[|head|..]
  {
    var x := Concat(chunks)[|head|..];
    assert Fresh.hanging + head == head;
    ReadBackFrom(Fresh, head, chunks, x);
  }

  lemma ReadBackFrom(st: ReaderState, head: Bytes, chunks: seq<Bytes>, x: Bytes)
    requires !st.over && st.leftover == [] && Utf8.Valid(head)
    requires ScanLines(st.code, st.headers, st.hanging + head).Scanned?
    requires ScanLines(st.code, st.headers, st.hanging + head).over
    requires ScanLines(st.code, st.headers, st.hanging + head).rest == []
    requires |chunks| > 0 && forall i :: 0 <= i < |chunks| - 1 ==> Utf8.Valid(chunks[i])
    requires |Concat(chunks[..|chunks| - 1])| < |head| <= |Concat(chunks)|
    requires Concat(chunks)[..|head|] == head
    requires x == Concat(chunks)[|head|..]
    ensures var s := ScanLines(st.code, st.headers, st.hanging + head);
      && FeedAll(st, chunks).Success?
      && FeedAll(st, chunks).value.over
      && FeedAll(st, chunks).value.code == s.code
      && FeedAll(st, chunks).value.headers == s.headers
      && Buffered(FeedAll(st, chunks).value) == x
  {
    FeedAllHead(st, head, chunks);
    var s := ScanLines(st.code, st.headers, st.hanging + head);
    var vx := Utf8.ValidUpTo(x);
    assert st.leftover + x[vx..] == x[vx..];
    var r := ReaderState(s.code, s.headers, x[..vx], x[vx..], true);
    assert FeedAll(st, chunks) == Success(r);
    SliceJoin(x, vx);
  }

  /** How much body `Content-Length` asks for, if it is there at all. */
  datatype BodyPlan = NoBody | Exactly(length: nat)

  /** `response_headers.get("Content-Length")`, read with `str::parse::<usize>`. */
  function Plan(headers: Headers): (r: Result<BodyPlan, ReadFailure>)
    ensures r.Success? && r.value.NoBody? <==> CONTENT_LENGTH !in headers
    ensures r.Failure? <==> CONTENT_LENGTH in headers && Numbers.ParseUnsigned(headers[CONTENT_LENGTH], 10, 64).None?
    ensures r.Success? && r.value.Exactly? ==> r.value.length < Numbers.Pow2(64)
  {
    if CONTENT_LENGTH !in headers then Success(NoBody)
    else match Numbers.ParseUnsigned(headers[CONTENT_LENGTH], 10, 64)
      case None => Failure(BadContentLength(headers[CONTENT_LENGTH]))
      case Some(n) => Success(Exactly(n))
  }

  /** The bytes `read_exact` is asked for: what the buffered bytes fall short of the announced length. */
  function Missing(buffered: Bytes, plan: BodyPlan): (n: nat)
    ensures plan.NoBody? ==> n == 0
    ensures plan.Exactly? ==> |buffered| + n >= plan.length
    ensures plan.Exactly? && n > 0 ==> |buffered| + n == plan.length
  {
    if plan.Exactly? && |buffered| < plan.length then plan.length - |buffered| else 0
  }

  /**
   * The body of a response with a `Content-Length`: a property list when
   * `Content-Type` (taken as empty when absent) names the binary plist
   * type and the bytes decode as one, the raw bytes otherwise.
   */
  function Classify(headers: Headers, payload: Bytes, codec: PlistCodec): (r: Body)
    ensures r.Plist? <==> CONTENT_TYPE in headers && headers[CONTENT_TYPE] == PLIST_CONTENT_TYPE && codec.decode(payload).Some?
    ensures r.Plist? ==> codec.decode(payload) == Option.Some(r.value)
    ensures r.Raw? ==> r.bytes == payload
    ensures !r.None?
  {
    var contentType := if CONTENT_TYPE in headers then headers[CONTENT_TYPE] else [];
    if contentType == PLIST_CONTENT_TYPE then
      match codec.decode(payload)
      case Some(v) => Plist(v)
      case None => Raw(payload)
    else Raw(payload)
  }

  /**
   * The response a finished header block makes, given the `more` bytes
   * `read_exact` delivered: no body without `Content-Length`, otherwise
   * everything buffered plus `more` (so at least the announced length, and
   * more than it when a read reached past the body).
   */
  function Respond(st: ReaderState, more: Bytes, codec: PlistCodec): (r: Result<Response, ReadFailure>)
    requires Plan(st.headers).Success? ==> |more| == Missing(Buffered(st), Plan(st.headers).value)
    ensures r.Success? <==> Plan(st.headers).Success?
    ensures r.Success? ==> r.value.status == st.code && r.value.headers == st.headers
    ensures r.Success? ==> (r.value.body == Body.None <==> CONTENT_LENGTH !in st.headers)
    ensures r.Success? && CONTENT_LENGTH in st.headers ==>
      var payload := Buffered(st) + more;
      && r.value.body == Classify(st.headers, payload, codec)
      && |payload| == if |Buffered(st)| < Plan(st.headers).value.length then Plan(st.headers).value.length else |Buffered(st)|
  {
    var plan :- Plan(st.headers);
    match plan
    case NoBody => Success(Response(st.code, st.headers, Body.None))
    case Exactly(_) => Success(Response(st.code, st.headers, Classify(st.headers, Buffered(st) + more, codec)))
  }

  /** The length a normalised request announces is read back as the length of its body. */
  lemma PlanOfNormalized(h: Headers, length: nat, cseq: nat)
    requires 0 < length < Numbers.Pow2(64)
    ensures Plan(NormalizedHeaders(h, length, cseq)) == Success(Exactly(length))
  {
    Numbers.DecimalRoundTrip(length);
  }

  /** When the whole body was buffered with the head, nothing more is read and the body is exactly what follows the blank line. */
  lemma RespondBuffered(st: ReaderState, body: Bytes, codec: PlistCodec)
    requires Buffered(st) == body && Plan(st.headers) == Success(Exactly(|body|))
    ensures Missing(Buffered(st), Exactly(|body|)) == 0
    ensures Respond(st, [], codec) == Success(Response(st.code, st.headers, Classify(st.headers, body, codec)))
  {
    assert body + [] == body;
  }

  /** When the head arrived with only part of the body, `read_exact` completes it to exactly the body. */
  lemma RespondCompleted(st: ReaderState, body: Bytes, codec: PlistCodec)
    requires Plan(st.headers) == Success(Exactly(|body|))
    requires |Buffered(st)| <= |body| && body[..|Buffered(st)|] == Buffered(st)
    ensures Missing(Buffered(st), Exactly(|body|)) == |body| - |Buffered(st)|
    ensures Respond(st, body[|Buffered(st)|..], codec) == Success(Response(st.code, st.headers, Classify(st.headers, body, codec)))
  {
    SliceJoin(body, |Buffered(st)|);
  }

  /**
   * A body comes back as it was sent: the bytes `BodyBytes` sends are
   * classified back into the same body, a plist when the headers announce
   * the binary plist type and the codec reads its own output back, and raw
   * bytes when they do not.
   */
  lemma BodyReadBack(headers: Headers, body: Body, codec: PlistCodec)
    requires !body.None?
    requires body.Plist? <==> CONTENT_TYPE in headers && headers[CONTENT_TYPE] == PLIST_CONTENT_TYPE
    requires body.Plist? ==> codec.decode(codec.encode(body.value)) == Option.Some(body.value)
    ensures Classify(headers, BodyBytes(body, codec), codec) == body
  {
  }

  /**
   * A read that ends in the first byte of a multi-byte character sets that
   * byte aside and otherwise reads as the well-formed text before it.
   */
  lemma CutCharacterSetAside(st: ReaderState, a: Bytes, lead: byte)
    requires !st.over && Utf8.Valid(a) && 0xC2 <= lead <= 0xF4
    ensures Feed(st, a + [lead]).Success? <==> Feed(st, a).Success?
    ensures Feed(st, a).Success? ==> Feed(st, a + [lead]) == Success(Feed(st, a).value.(leftover := st.leftover + [lead]))
  {
    FeedValid(st, a);
    FeedAfterValid(st, a, [lead]);
    assert Utf8.ValidUpTo([lead]) == 0;
    assert [lead][..0] == [] && [lead][0..] == [lead];
    assert (st.hanging + a) + [] == st.hanging + a;
  }

  /**
   * A read that starts with a continuation byte (the rest of a character
   * cut by the previous read) is set aside whole: none of its lines are
   * scanned, even the blank line that would end the header block.
   */
  lemma ContinuationReadSetAside(st: ReaderState, chunk: Bytes)
    requires !st.over && Find(st.hanging, CRLF).None?
    requires |chunk| > 0 && Utf8.Continuation(chunk[0])
    ensures Feed(st, chunk) == Success(st.(leftover := st.leftover + chunk))
  {
    assert Utf8.ValidUpTo(chunk) == 0;
    assert st.hanging + chunk[..0] == st.hanging;
  }

  /** The header-phase locals of the listener task, updated in place read by read. */
  class Reader {
    var responseCode: int
    var responseHeaders: Headers
    var hanging: Bytes
    var leftover: Bytes
    var over: bool

    function State(): ReaderState
      reads this
    {
      ReaderState(responseCode, responseHeaders, hanging, leftover, over)
    }

    constructor ()
      ensures State() == Fresh
    {
      responseCode := NO_STATUS;
      responseHeaders := map[];
      hanging := [];
      leftover := [];
      over := false;
    }

    /** The locals are declared afresh at the top of each pass of the `'request` loop. */
    method Reset()
      modifies this
      ensures State() == Fresh
    {
      responseCode := NO_STATUS;
      responseHeaders := map[];
      hanging := [];
      leftover := [];
      over := false;
    }

    /**
     * One successful read of `chunk` (mod.rs 125-160). Answers false where
     * the source panics on a header line without `": "`.
     */
    method Read(chunk: Bytes) returns (ok: bool)
      requires !over && 0 < |chunk| <= READ_BUFFER_SIZE
      modifies this
      ensures ok <==> Feed(old(State()), chunk).Success?
      ensures ok ==> State() == Feed(old(State()), chunk).value
      ensures !ok ==> unchanged(this)
    {
      var valid := Utf8.ValidUpTo(chunk);
      var text := hanging + chunk[..valid];
      ghost var scanned := ScanLines(responseCode, responseHeaders, text);
      var code, headers, done := responseCode, responseHeaders, false;
      while Find(text, CRLF).Some?
        invariant ScanLines(code, headers, text) == scanned
        decreases |text|
      {
        var (line, rest) := SplitOnce(text, CRLF).value;
        text := rest;
        if code == NO_STATUS {
          code := PLACEHOLDER_STATUS;
        } else if |line| == 0 {
          done := true;
          break;
        } else {
          var field := SplitOnce(line, COLON_SP);
          if field.None? {
            return false;
          }
          headers := headers[field.value.0 := field.value.1];
        }
      }
      assert scanned == Scanned(code, headers, done, text);
      responseCode, responseHeaders, hanging, over := code, headers, text, done;
      leftover := leftover + chunk[valid..];
      return true;
    }
  }
}

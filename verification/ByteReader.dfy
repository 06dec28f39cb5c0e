/**
 The reader thread of transport.c for any parser: bytes gather in a buffer, which is cleared after every frame and
 when it is full. What the wire format adds is in module FrameStream.
 */
module ByteReader {
  import opened Wrappers

  const BUF_SIZE := 256

  datatype Kind = ReportFrame | CmdResponse | CalibrationFrame

  /** A frame given to a callback, and where it starts: in the buffer, or in the whole stream. */
  datatype Call = Call(kind: Kind, from: nat, frame: seq<byte>)

  /** What a parser finds at the end of the buffer: nothing yet, or the end of a frame, with or without a callback. */
  datatype Outcome = NoFrame | Ended(kind: Kind, call: Option<Call>)

  type Parser = seq<byte> -> Outcome

  /** The buffer is cleared: a frame ends here, or the buffer is full. */
  predicate Clears(parse: Parser, s: seq<byte>) {
    parse(s).Ended? || |s| >= BUF_SIZE
  }

  /** The bytes gathered since the buffer was last cleared, and how many came before them. */
  datatype Rx = Rx(buf: seq<byte>, base: nat) {
    function Next(parse: Parser, b: byte): Rx {
      var s := buf + [b];
      if Clears(parse, s) then Rx([], base + |s|) else Rx(s, base)
    }

    /** The callback this byte triggers, placed in the stream. */
    function Calls(parse: Parser, b: byte): seq<Call> {
      Deliver(parse(buf + [b]), base)
    }
  }

  const EMPTY := Rx([], 0)

  function Deliver(o: Outcome, base: nat): seq<Call> {
    if o.Ended? && o.call.Some? then [o.call.value.(from := base + o.call.value.from)] else []
  }

  function Feed(parse: Parser, rx: Rx, stream: seq<byte>): seq<Call>
    decreases |stream|
  {
    if stream == [] then []
    else rx.Calls(parse, stream[0]) + Feed(parse, rx.Next(parse, stream[0]), stream[1..])
  }

  /** Where a stream leaves the buffer. */
  function After(parse: Parser, rx: Rx, stream: seq<byte>): Rx
    decreases |stream|
  {
    if stream == [] then rx else After(parse, rx.Next(parse, stream[0]), stream[1..])
  }

  lemma {:induction false} AfterAppend(parse: Parser, rx: Rx, a: seq<byte>, b: seq<byte>)
    ensures After(parse, rx, a + b) == After(parse, After(parse, rx, a), b)
    decreases |a|
  {
    if a == [] {
      assert a + b == b;
    } else {
      AfterAppend(parse, rx.Next(parse, a[0]), a[1..], b);
      assert (a + b)[1..] == a[1..] + b;
    }
  }

  lemma CallsAssociate(a: seq<Call>, b: seq<Call>, c: seq<Call>)
    ensures (a + b) + c == a + (b + c)
  {
  }

  lemma {:induction false} FeedAppend(parse: Parser, rx: Rx, a: seq<byte>, b: seq<byte>)
    ensures Feed(parse, rx, a + b) == Feed(parse, rx, a) + Feed(parse, After(parse, rx, a), b)
    decreases |a|
  {
    if a == [] {
      assert a + b == b;
    } else {
      var next := rx.Next(parse, a[0]);
      FeedAppend(parse, next, a[1..], b);
      assert (a + b)[1..] == a[1..] + b;
      CallsAssociate(rx.Calls(parse, a[0]), Feed(parse, next, a[1..]), Feed(parse, After(parse, next, a[1..]), b));
    }
  }

  /** The buffer holds the end of what came. */
  ghost predicate Holds(rx: Rx, stream: seq<byte>, n: nat)
    requires n <= |stream|
  {
    rx.base <= n && rx.buf == stream[rx.base..n]
  }

  lemma HoldsNext(parse: Parser, rx: Rx, stream: seq<byte>, n: nat)
    requires n < |stream| && Holds(rx, stream, n)
    ensures rx.buf + [stream[n]] == stream[rx.base..n + 1] && Holds(rx.Next(parse, stream[n]), stream, n + 1)
    ensures |rx.Next(parse, stream[n]).buf| < BUF_SIZE
  {
  }

  lemma AfterOneMore(parse: Parser, stream: seq<byte>, n: nat)
    requires n < |stream|
    ensures After(parse, EMPTY, stream[..n + 1]) == After(parse, EMPTY, stream[..n]).Next(parse, stream[n])
  {
    assert stream[..n + 1] == stream[..n] + [stream[n]];
    AfterAppend(parse, EMPTY, stream[..n], [stream[n]]);
  }

  lemma {:induction false} AfterHolds(parse: Parser, stream: seq<byte>, n: nat)
    requires n <= |stream|
    ensures Holds(After(parse, EMPTY, stream[..n]), stream, n) && |After(parse, EMPTY, stream[..n]).buf| < BUF_SIZE
    decreases n
  {
    if n == 0 {
      assert stream[..n] == [];
    } else {
      AfterHolds(parse, stream, n - 1);
      AfterOneMore(parse, stream, n - 1);
      HoldsNext(parse, After(parse, EMPTY, stream[..n - 1]), stream, n - 1);
    }
  }

  // ---- Where the frames are ----

  /** The frame lies in s exactly where the call says. */
  predicate SliceOf(c: Call, s: seq<byte>) {
    c.from + |c.frame| <= |s| && s[c.from..c.from + |c.frame|] == c.frame
  }

  /** What the parser finds is a good frame, and ends with the newest byte. */
  ghost predicate Frames(parse: Parser, good: (Kind, seq<byte>) -> bool) {
    forall s :: parse(s).Ended? && parse(s).call.Some? ==>
      var c := parse(s).call.value; good(c.kind, c.frame) && SliceOf(c, s) && c.from + |c.frame| == |s|
  }

  /** Calls placed one after the other without overlap, none before `low`. */
  predicate InOrder(cs: seq<Call>, low: nat) {
    cs == [] || (low <= cs[0].from && InOrder(cs[1..], cs[0].from + |cs[0].frame|))
  }

  predicate Placed(cs: seq<Call>, good: (Kind, seq<byte>) -> bool, stream: seq<byte>) {
    forall c :: c in cs ==> good(c.kind, c.frame) && SliceOf(c, stream)
  }

  lemma SliceShift(stream: seq<byte>, lo: nat, hi: nat, c: Call)
    requires lo <= hi <= |stream| && SliceOf(c, stream[lo..hi])
    ensures SliceOf(c.(from := lo + c.from), stream)
  {
    forall k | 0 <= k < |c.frame|
      ensures stream[lo + c.from + k] == c.frame[k]
    {
      assert stream[lo..hi][c.from..c.from + |c.frame|][k] == stream[lo..hi][c.from + k];
    }
  }

  /** A call lies in the stream where it says, and ends with the byte that triggered it. */
  lemma PlacedCall(parse: Parser, good: (Kind, seq<byte>) -> bool, stream: seq<byte>, rx: Rx, pos: nat)
    requires Frames(parse, good) && pos < |stream| && Holds(rx, stream, pos) && rx.Calls(parse, stream[pos]) != []
    ensures |rx.Calls(parse, stream[pos])| == 1
    ensures var c := rx.Calls(parse, stream[pos])[0];
      && good(c.kind, c.frame) && SliceOf(c, stream) && rx.base <= c.from
      && c.from + |c.frame| == pos + 1 == rx.Next(parse, stream[pos]).base
  {
    HoldsNext(parse, rx, stream, pos);
    SliceShift(stream, rx.base, pos + 1, parse(rx.buf + [stream[pos]]).call.value);
  }

  lemma LowerBound(cs: seq<Call>, low: nat, lower: nat)
    requires InOrder(cs, low) && lower <= low
    ensures InOrder(cs, lower)
  {
  }

  /** From any point of the stream on, the frames are good slices of it that follow each other. */
  lemma {:induction false} SafeFrom(parse: Parser, good: (Kind, seq<byte>) -> bool, stream: seq<byte>, rx: Rx, pos: nat)
    requires Frames(parse, good) && pos <= |stream| && Holds(rx, stream, pos)
    ensures InOrder(Feed(parse, rx, stream[pos..]), rx.base)
    ensures Placed(Feed(parse, rx, stream[pos..]), good, stream)
    decreases |stream| - pos
  {
    if pos == |stream| {
    } else {
      var b, next := stream[pos], rx.Next(parse, stream[pos]);
      HoldsNext(parse, rx, stream, pos);
      assert stream[pos..][1..] == stream[pos + 1..];
      SafeFrom(parse, good, stream, next, pos + 1);
      var more := Feed(parse, next, stream[pos + 1..]);
      assert Feed(parse, rx, stream[pos..]) == rx.Calls(parse, b) + more;
      if rx.Calls(parse, b) != [] {
        PlacedCall(parse, good, stream, rx, pos);
        assert (rx.Calls(parse, b) + more)[1..] == more;
      } else {
        assert rx.Calls(parse, b) + more == more;
        LowerBound(more, next.base, rx.base);
      }
    }
  }

  lemma {:induction false} AllAfter(cs: seq<Call>, low: nat)
    requires InOrder(cs, low)
    ensures forall c :: c in cs ==> c.from >= low
    decreases |cs|
  {
    if cs == [] {
    } else {
      AllAfter(cs[1..], cs[0].from + |cs[0].frame|);
      assert forall c :: c in cs ==> c == cs[0] || c in cs[1..];
    }
  }

  // ---- What is gathered, and what is not ----

  /** From its k-th byte on no frame ends before s is complete: s is parsed once, as a whole. */
  lemma {:induction false} GatherAll(parse: Parser, s: seq<byte>, k: nat, base: nat)
    requires k < |s| <= BUF_SIZE && forall j :: k < j < |s| ==> !parse(s[..j]).Ended?
    ensures Feed(parse, Rx(s[..k], base), s[k..]) == Deliver(parse(s), base)
    decreases |s| - k
  {
    var rx := Rx(s[..k], base);
    assert s[..k] + [s[k]] == s[..k + 1] && s[k..][1..] == s[k + 1..];
    assert Feed(parse, rx, s[k..]) == rx.Calls(parse, s[k]) + Feed(parse, rx.Next(parse, s[k]), s[k + 1..]);
    if k + 1 == |s| {
      assert s[..k + 1] == s && s[k + 1..] == [];
    } else {
      assert !parse(s[..k + 1]).Ended?;
      GatherAll(parse, s, k + 1, base);
    }
  }

  /** No call gets everything from `at` to `end`. */
  predicate Misses(cs: seq<Call>, at: nat, end: nat) {
    forall c :: c in cs ==> c.from > at || c.from + |c.frame| < end
  }

  lemma CallEndsHere(parse: Parser, good: (Kind, seq<byte>) -> bool, stream: seq<byte>, rx: Rx, pos: nat, at: nat)
    requires Frames(parse, good) && pos + 1 < |stream| && Holds(rx, stream, pos)
    ensures Misses(rx.Calls(parse, stream[pos]), at, |stream|)
  {
    if rx.Calls(parse, stream[pos]) != [] {
      PlacedCall(parse, good, stream, rx, pos);
    }
  }

  lemma MissesBoth(a: seq<Call>, b: seq<Call>, at: nat, end: nat)
    requires Misses(a, at, end) && Misses(b, at, end)
    ensures Misses(a + b, at, end)
  {
  }

  /** Once the buffer is cleared after `at` and before the end of the stream, no callback gets all from `at` on. */
  lemma {:induction false} Interrupted(parse: Parser, good: (Kind, seq<byte>) -> bool, stream: seq<byte>, rx: Rx,
                                       pos: nat, at: nat, j: nat)
    requires Frames(parse, good) && at <= pos < j < |stream| && rx.base <= at && Holds(rx, stream, pos)
    requires Clears(parse, stream[rx.base..j])
    ensures Misses(Feed(parse, rx, stream[pos..]), at, |stream|)
    decreases |stream| - pos
  {
    var next := rx.Next(parse, stream[pos]);
    HoldsNext(parse, rx, stream, pos);
    assert stream[pos..][1..] == stream[pos + 1..];
    CallEndsHere(parse, good, stream, rx, pos, at);
    if Clears(parse, stream[rx.base..pos + 1]) {
      SafeFrom(parse, good, stream, next, pos + 1);
      AllAfter(Feed(parse, next, stream[pos + 1..]), pos + 1);
    } else {
      Interrupted(parse, good, stream, next, pos + 1, at, j);
    }
    MissesBoth(rx.Calls(parse, stream[pos]), Feed(parse, next, stream[pos + 1..]), at, |stream|);
  }

  /** On top of what the buffer holds, f can be gathered to its end. */
  ghost predicate Gathers(parse: Parser, buf: seq<byte>, f: seq<byte>) {
    |buf| + |f| <= BUF_SIZE && forall k :: 0 < k < |f| ==> !parse(buf + f[..k]).Ended?
  }

  lemma NotInJunk(parse: Parser, good: (Kind, seq<byte>) -> bool, kind: Kind, junk: seq<byte>, f: seq<byte>)
    requires Frames(parse, good) && f != []
    ensures Call(kind, |junk|, f) !in Feed(parse, EMPTY, junk)
  {
    assert junk[0..] == junk;
    SafeFrom(parse, good, junk, EMPTY, 0);
  }

  predicate FindsAt(o: Outcome, c: Call) {
    o.Ended? && o.call == Some(c)
  }

  lemma ClearedEarly(parse: Parser, rx: Rx, junk: seq<byte>, f: seq<byte>) returns (j: nat)
    requires Holds(rx, junk + f, |junk|) && |rx.buf| < BUF_SIZE && !Gathers(parse, rx.buf, f)
    ensures |junk| < j < |junk + f| && Clears(parse, (junk + f)[rx.base..j])
  {
    if |rx.buf| + |f| > BUF_SIZE {
      j := rx.base + BUF_SIZE;
    } else {
      var k :| 0 < k < |f| && parse(rx.buf + f[..k]).Ended?;
      j := |junk| + k;
      assert (junk + f)[rx.base..j] == rx.buf + f[..k];
    }
  }

  lemma NoneEndsInside(parse: Parser, buf: seq<byte>, f: seq<byte>)
    requires Gathers(parse, buf, f)
    ensures forall j :: |buf| < j < |buf + f| ==> !parse((buf + f)[..j]).Ended?
  {
    forall j | |buf| < j < |buf + f| ensures !parse((buf + f)[..j]).Ended? {
      assert (buf + f)[..j] == buf + f[..j - |buf|];
    }
  }

  lemma DeliversIt(o: Outcome, base: nat, c: Call)
    ensures c.(from := base + c.from) in Deliver(o, base) <==> FindsAt(o, c)
  {
  }

  lemma GatheredIn(parse: Parser, s: seq<byte>, n: nat, base: nat, kind: Kind)
    requires n < |s| <= BUF_SIZE && forall j :: n < j < |s| ==> !parse(s[..j]).Ended?
    ensures Call(kind, base + n, s[n..]) in Feed(parse, Rx(s[..n], base), s[n..])
       <==> FindsAt(parse(s), Call(kind, n, s[n..]))
  {
    GatherAll(parse, s, n, base);
    DeliversIt(parse(s), base, Call(kind, n, s[n..]));
  }

  lemma GatheredFrame(parse: Parser, rx: Rx, kind: Kind, f: seq<byte>)
    requires f != [] && Gathers(parse, rx.buf, f)
    ensures Call(kind, rx.base + |rx.buf|, f) in Feed(parse, rx, f)
       <==> FindsAt(parse(rx.buf + f), Call(kind, |rx.buf|, f))
  {
    var s, n := rx.buf + f, |rx.buf|;
    NoneEndsInside(parse, rx.buf, f);
    GatheredIn(parse, s, n, rx.base, kind);
    assert s[..n] == rx.buf && s[n..] == f;
  }

  lemma FoundAfter(parse: Parser, good: (Kind, seq<byte>) -> bool, kind: Kind, rx: Rx, junk: seq<byte>, f: seq<byte>)
    requires Frames(parse, good) && f != [] && Holds(rx, junk + f, |junk|) && |rx.buf| < BUF_SIZE
    ensures Call(kind, |junk|, f) in Feed(parse, rx, f)
       <==> Gathers(parse, rx.buf, f) && FindsAt(parse(rx.buf + f), Call(kind, |rx.buf|, f))
  {
    if Gathers(parse, rx.buf, f) {
      GatheredFrame(parse, rx, kind, f);
    } else {
      var j := ClearedEarly(parse, rx, junk, f);
      assert (junk + f)[|junk|..] == f;
      Interrupted(parse, good, junk + f, rx, |junk|, |junk|, j);
    }
  }

  /**
   Whatever bytes came before, a callback gets exactly f, at its place, if and only if the buffer as they left it
   has room for all of it, no frame ends on the way, and the parser finds f at the end.
   */
  lemma FoundExactly(parse: Parser, good: (Kind, seq<byte>) -> bool, kind: Kind, junk: seq<byte>, f: seq<byte>)
    requires Frames(parse, good) && f != []
    ensures var buf := After(parse, EMPTY, junk).buf;
      Call(kind, |junk|, f) in Feed(parse, EMPTY, junk + f)
      <==> Gathers(parse, buf, f) && FindsAt(parse(buf + f), Call(kind, |buf|, f))
  {
    var stream, rx := junk + f, After(parse, EMPTY, junk);
    assert stream[..|junk|] == junk;
    AfterHolds(parse, stream, |junk|);
    FeedAppend(parse, EMPTY, junk, f);
    NotInJunk(parse, good, kind, junk, f);
    FoundAfter(parse, good, kind, rx, junk, f);
  }

  lemma SilentByte(parse: Parser, rx: Rx, stream: seq<byte>, n: nat)
    requires n < |stream| && Holds(rx, stream, n) && rx.base == n - n % BUF_SIZE
    requires !parse(stream[rx.base..n + 1]).Ended?
    ensures rx.Next(parse, stream[n]).base == (n + 1) - (n + 1) % BUF_SIZE
  {
    HoldsNext(parse, rx, stream, n);
  }

  /** Bytes that end no frame only fill the buffer, over and over. */
  lemma {:induction false} SilentJunkWraps(parse: Parser, stream: seq<byte>, n: nat)
    requires n <= |stream| && forall lo, hi :: 0 <= lo <= hi <= n ==> !parse(stream[lo..hi]).Ended?
    ensures After(parse, EMPTY, stream[..n]).base == n - n % BUF_SIZE
    decreases n
  {
    if n == 0 {
      assert stream[..n] == [];
    } else {
      var rx := After(parse, EMPTY, stream[..n - 1]);
      SilentJunkWraps(parse, stream, n - 1);
      AfterHolds(parse, stream, n - 1);
      AfterOneMore(parse, stream, n - 1);
      SilentByte(parse, rx, stream, n - 1);
    }
  }

  /** No frame ends before the last byte. */
  ghost predicate EndsNowhere(parse: Parser, f: seq<byte>) {
    forall k :: 0 < k < |f| ==> !parse(f[..k]).Ended?
  }

  /**
   From an empty buffer the bytes of f make one callback with all of f, and no other, exactly when no frame ends
   before them and the parser finds f.
   */
  lemma OneCallExactly(parse: Parser, good: (Kind, seq<byte>) -> bool, kind: Kind, f: seq<byte>)
    requires Frames(parse, good) && 0 < |f| <= BUF_SIZE
    ensures Feed(parse, EMPTY, f) == [Call(kind, 0, f)]
       <==> EndsNowhere(parse, f) && FindsAt(parse(f), Call(kind, 0, f))
  {
    var calls, whole := Feed(parse, EMPTY, f), Call(kind, 0, f);
    assert f[..0] == [] && f[0..] == f && whole in [whole];
    if EndsNowhere(parse, f) {
      GatherAll(parse, f, 0, 0);
    } else {
      var k :| 0 < k < |f| && parse(f[..k]).Ended?;
      Interrupted(parse, good, f, EMPTY, 0, 0, k);
    }
  }
}

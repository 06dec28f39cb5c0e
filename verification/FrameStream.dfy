/**
 The wire format of transport.c: how a command is framed, and how the reader finds frames in the
 byte stream, one byte at a time, by looking back from the newest byte.
 */
module FrameStream {
  import opened ByteReader
  import opened Wrappers

  type Pattern = p: seq<byte> | |p| == 4 witness [0, 0, 0, 0]
  type word = w: int | 0 <= w < 0x1_0000

  const MAX_DATA := 128

  const CMD_HEADER: Pattern := [0xFD, 0xFC, 0xFB, 0xFA]
  const CMD_FOOTER: Pattern := [0x04, 0x03, 0x02, 0x01]
  const CAL_HEADER: Pattern := [0xF4, 0xF3, 0xF2, 0xF1]
  const CAL_FOOTER: Pattern := [0xF8, 0xF7, 0xF6, 0xF5]

  const REPORT_FIRST: byte := 0x6E
  const REPORT_LAST: byte := 0x62

  function ReadU16(s: seq<byte>, i: nat): word
    requires i + 2 <= |s|
  {
    (s[i] as int) + (s[i + 1] as int) * 256
  }

  function U16(v: word): seq<byte> {
    [v % 256, v / 256]
  }

  predicate MatchAt(s: seq<byte>, i: nat, p: Pattern) {
    i + 4 <= |s| && s[i] == p[0] && s[i + 1] == p[1] && s[i + 2] == p[2] && s[i + 3] == p[3]
  }

  /** r is the last place where the pattern lies within s[..n]. */
  ghost predicate IsLast(s: seq<byte>, n: nat, p: Pattern, r: Option<nat>) {
    && (r.Some? ==> r.value + 4 <= n && MatchAt(s, r.value, p))
    && (forall i: nat :: (r.Some? ==> r.value < i) && i + 4 <= n ==> !MatchAt(s, i, p))
  }

  function FindLast(s: seq<byte>, n: nat, p: Pattern): (r: Option<nat>)
    requires n <= |s|
    ensures IsLast(s, n, p, r)
  {
    if n < 4 then None
    else if MatchAt(s, n - 4, p) then Some(n - 4)
    else FindLast(s, n - 1, p)
  }

  lemma LastIsUnique(s: seq<byte>, n: nat, p: Pattern, a: Option<nat>, b: Option<nat>)
    requires IsLast(s, n, p, a) && IsLast(s, n, p, b)
    ensures a == b
  {
  }

  // ---- Frames ----

  const MIN_RESPONSE := 4 + 2 + 2 + 2 + 4

  predicate EndsReport(s: seq<byte>) {
    |s| >= 5 && s[|s| - 5] == REPORT_FIRST && s[|s| - 1] == REPORT_LAST
  }

  predicate EndsWith(s: seq<byte>, footer: Pattern) {
    |s| >= 4 && MatchAt(s, |s| - 4, footer)
  }

  predicate EndsFrame(s: seq<byte>) {
    EndsReport(s) || EndsWith(s, CMD_FOOTER) || EndsWith(s, CAL_FOOTER)
  }

  function Parse(s: seq<byte>): Outcome {
    var n := |s|;
    if EndsReport(s) then
      Ended(ReportFrame, Some(Call(ReportFrame, n - 5, s[n - 5..])))
    else if EndsWith(s, CMD_FOOTER) then
      var header := FindLast(s, n - 4, CMD_HEADER);
      Ended(CmdResponse,
            if header.Some? && n - header.value >= MIN_RESPONSE
            then Some(Call(CmdResponse, header.value, s[header.value..])) else None)
    else if EndsWith(s, CAL_FOOTER) then
      var header := FindLast(s, n - 4, CAL_HEADER);
      Ended(CalibrationFrame,
            if header.Some? then Some(Call(CalibrationFrame, header.value, s[header.value..])) else None)
    else NoFrame
  }

  /** What the command callback is told about a response frame. */
  datatype Response = Response(cmd: word, status: word, data: seq<byte>)

  function Decode(frame: seq<byte>): Response
    requires |frame| >= MIN_RESPONSE
  {
    Response(ReadU16(frame, 6), ReadU16(frame, 8), frame[10..|frame| - 4])
  }

  function Encode(cmd: word, data: seq<byte>): Option<seq<byte>> {
    if 2 + |data| > MAX_DATA then None
    else Some(CMD_HEADER + U16(2 + |data|) + U16(cmd) + data + CMD_FOOTER)
  }

  // ---- The stream ----

  /** A frame begins with its header and ends with its footer. */
  predicate Framed(kind: Kind, frame: seq<byte>) {
    match kind
    case ReportFrame => |frame| == 5 && frame[0] == REPORT_FIRST && frame[4] == REPORT_LAST
    case CmdResponse => |frame| >= MIN_RESPONSE && MatchAt(frame, 0, CMD_HEADER) && EndsWith(frame, CMD_FOOTER)
    case CalibrationFrame => |frame| >= 8 && MatchAt(frame, 0, CAL_HEADER) && EndsWith(frame, CAL_FOOTER)
  }

  lemma ParseIsFramed(s: seq<byte>)
    requires Parse(s).Ended? && Parse(s).call.Some?
    ensures var c := Parse(s).call.value; Framed(c.kind, c.frame) && SliceOf(c, s) && c.from + |c.frame| == |s|
  {
  }

  lemma ParseFrames()
    ensures Frames(Parse, Framed)
  {
    forall s | Parse(s).Ended? && Parse(s).call.Some?
      ensures var c := Parse(s).call.value; Framed(c.kind, c.frame) && SliceOf(c, s) && c.from + |c.frame| == |s|
    {
      ParseIsFramed(s);
    }
  }

  /**
   For every byte stream: each frame given to a callback is a slice of the stream, from its header
   to its footer, and the slices follow each other without overlap.
   */
  lemma StreamSafe(stream: seq<byte>)
    ensures InOrder(Feed(Parse, EMPTY, stream), 0)
    ensures forall c :: c in Feed(Parse, EMPTY, stream) ==> Framed(c.kind, c.frame) && SliceOf(c, stream)
  {
    assert stream[0..] == stream;
    ParseFrames();
    SafeFrom(Parse, Framed, stream, EMPTY, 0);
  }

  // ---- Round trip ----

  /** No frame ends before the last byte. */
  predicate Unbroken(s: seq<byte>) {
    forall k :: 0 <= k < |s| ==> !EndsFrame(s[..k])
  }

  /** The header, which starts the frame, occurs nowhere else before the footer. */
  predicate OneHeader(f: seq<byte>, header: Pattern) {
    forall i :: 0 < i && i + 8 <= |f| ==> !MatchAt(f, i, header)
  }

  /** The shape of a command frame with a status. */
  predicate IsResponse(f: seq<byte>) {
    |f| >= 14 && f[..4] == [0xFD, 0xFC, 0xFB, 0xFA] && f[|f| - 4..] == [0x04, 0x03, 0x02, 0x01]
  }

  predicate IsReport(f: seq<byte>) {
    |f| == 5 && f[0] == 0x6E && f[4] == 0x62
  }

  predicate IsCalibration(f: seq<byte>) {
    |f| >= 8 && f[..4] == [0xF4, 0xF3, 0xF2, 0xF1] && f[|f| - 4..] == [0xF8, 0xF7, 0xF6, 0xF5]
  }

  /** At the end of the buffer a header is found where its frame starts, unless another hides it. */
  lemma HeaderFound(buf: seq<byte>, f: seq<byte>, header: Pattern)
    requires |f| >= 8 && MatchAt(f, 0, header)
    ensures FindLast(buf + f, |buf + f| - 4, header) == Some(|buf|) <==> OneHeader(f, header)
  {
    var s, j := buf + f, |buf|;
    assert forall i: nat :: j <= i && i + 4 <= |s| ==> MatchAt(s, i, header) == MatchAt(f, i - j, header);
    if OneHeader(f, header) {
      LastIsUnique(s, |s| - 4, header, FindLast(s, |s| - 4, header), Some(j));
    } else {
      var i :| 0 < i && i + 8 <= |f| && MatchAt(f, i, header);
      assert MatchAt(s, j + i, header);
    }
  }

  lemma FooterKept(buf: seq<byte>, f: seq<byte>, footer: Pattern)
    requires |f| >= 4
    ensures EndsWith(buf + f, footer) == EndsWith(f, footer)
  {
  }

  lemma ResponseShape(f: seq<byte>)
    requires IsResponse(f)
    ensures MatchAt(f, 0, CMD_HEADER) && EndsWith(f, CMD_FOOTER)
  {
    assert f[..4][0] == f[0] && f[..4][1] == f[1] && f[..4][2] == f[2] && f[..4][3] == f[3];
    var t := f[|f| - 4..];
    assert t[0] == f[|f| - 4] && t[1] == f[|f| - 3] && t[2] == f[|f| - 2] && t[3] == f[|f| - 1];
  }

  lemma FindsResponse(buf: seq<byte>, f: seq<byte>)
    requires |f| >= 8 && MatchAt(f, 0, CMD_HEADER) && EndsWith(f, CMD_FOOTER)
    ensures FindsAt(Parse(buf + f), Call(CmdResponse, |buf|, f)) <==> |f| >= MIN_RESPONSE && OneHeader(f, CMD_HEADER)
  {
    assert (buf + f)[|buf|..] == f;
    FooterKept(buf, f, CMD_FOOTER);
    HeaderFound(buf, f, CMD_HEADER);
  }

  lemma FindsCalibration(buf: seq<byte>, f: seq<byte>)
    requires |f| >= 8 && MatchAt(f, 0, CAL_HEADER) && EndsWith(f, CAL_FOOTER)
    ensures FindsAt(Parse(buf + f), Call(CalibrationFrame, |buf|, f)) <==> OneHeader(f, CAL_HEADER)
  {
    assert (buf + f)[|buf|..] == f;
    FooterKept(buf, f, CAL_FOOTER);
    HeaderFound(buf, f, CAL_HEADER);
  }

  lemma FindsReport(buf: seq<byte>, f: seq<byte>)
    requires IsReport(f)
    ensures FindsAt(Parse(buf + f), Call(ReportFrame, |buf|, f))
  {
    assert (buf + f)[|buf|..] == f;
  }

  /** The bytes on the wire: header, little-endian length and word, data, footer; 126 bytes of data are the most. */
  lemma EncodeLayout(cmd: word, data: seq<byte>)
    ensures Encode(cmd, data).Some? <==> |data| <= 126
    ensures |data| <= 126 ==>
      var f := Encode(cmd, data).value;
      && |f| == |data| + 12 && f[..4] == [0xFD, 0xFC, 0xFB, 0xFA] && f[|f| - 4..] == [0x04, 0x03, 0x02, 0x01]
      && f[4] as int + 256 * f[5] as int == |data| + 2 && f[6] as int + 256 * f[7] as int == cmd
      && f[8..8 + |data|] == data
  {
    if |data| <= 126 {
      var f := Encode(cmd, data).value;
      assert f[..4] == CMD_HEADER && f[|f| - 4..] == CMD_FOOTER;
    }
  }

  lemma EncodeShape(cmd: word, data: seq<byte>)
    requires |data| <= 126
    ensures var f := Encode(cmd, data).value;
      && |f| == |data| + 12 && MatchAt(f, 0, CMD_HEADER) && EndsWith(f, CMD_FOOTER)
      && ReadU16(f, 6) == cmd && f[8..|f| - 4] == data
  {
    var f := Encode(cmd, data).value;
    assert f[|f| - 4..] == CMD_FOOTER;
    assert f[0..4] == CMD_HEADER;
  }

  lemma UnbrokenIs(f: seq<byte>)
    ensures Unbroken(f) <==> EndsNowhere(Parse, f)
  {
    assert |f| > 0 ==> !EndsFrame(f[..0]);
    if !Unbroken(f) {
      var k :| 0 <= k < |f| && EndsFrame(f[..k]);
      assert Parse(f[..k]).Ended?;
    }
  }

  lemma ComesBackExactly(f: seq<byte>)
    requires 8 <= |f| <= BUF_SIZE && MatchAt(f, 0, CMD_HEADER) && EndsWith(f, CMD_FOOTER)
    ensures Feed(Parse, EMPTY, f) == [Call(CmdResponse, 0, f)] <==> |f| >= MIN_RESPONSE && Unbroken(f) && OneHeader(f, CMD_HEADER)
  {
    ParseFrames();
    OneCallExactly(Parse, Framed, CmdResponse, f);
    FindsResponse([], f);
    assert [] + f == f;
    UnbrokenIs(f);
  }

  /**
   A framed command that carries a status (two bytes of data at least) comes back as one response
   with the same word, status and data, and no other callback, exactly when nothing inside it looks
   like the end of a frame or like a second header.
   */
  lemma RoundTrip(cmd: word, data: seq<byte>)
    requires |data| <= 126
    ensures var f := Encode(cmd, data).value;
      Feed(Parse, EMPTY, f) == [Call(CmdResponse, 0, f)] <==> |data| >= 2 && Unbroken(f) && OneHeader(f, CMD_HEADER)
    ensures |data| >= 2 ==>
      Decode(Encode(cmd, data).value) == Response(cmd, data[0] as int + 256 * data[1] as int, data[2..])
  {
    var f := Encode(cmd, data).value;
    EncodeShape(cmd, data);
    if |data| >= 2 {
      assert f[8..|f| - 4] == data && f[10..|f| - 4] == data[2..];
    }
    ComesBackExactly(f);
  }

  /** Commands that do not come back: one that carries the footer in its data, and one that carries the header. */
  lemma SomeDoNotReturn(cmd: word)
    ensures var f := Encode(cmd, CMD_FOOTER).value; Feed(Parse, EMPTY, f) != [Call(CmdResponse, 0, f)]
    ensures var f := Encode(cmd, CMD_HEADER).value; Feed(Parse, EMPTY, f) != [Call(CmdResponse, 0, f)]
  {
    var f, h := Encode(cmd, CMD_FOOTER).value, Encode(cmd, CMD_HEADER).value;
    RoundTrip(cmd, CMD_FOOTER);
    RoundTrip(cmd, CMD_HEADER);
    assert EndsFrame(f[..12]);
    assert MatchAt(h, 8, CMD_HEADER);
  }

  // ---- Finding a frame again ----

  /**
   Whatever bytes came before, a response is found exactly when the buffer, as they left it, has room for all of
   it, no frame ends on the way, and no second header hides the first.
   */
  lemma Resync(junk: seq<byte>, f: seq<byte>)
    requires IsResponse(f)
    ensures Call(CmdResponse, |junk|, f) in Feed(Parse, EMPTY, junk + f)
       <==> Gathers(Parse, After(Parse, EMPTY, junk).buf, f) && OneHeader(f, CMD_HEADER)
  {
    ParseFrames();
    FoundExactly(Parse, Framed, CmdResponse, junk, f);
    ResponseShape(f);
    FindsResponse(After(Parse, EMPTY, junk).buf, f);
  }

  /** Junk that fits the buffer with the response, and ends no frame, makes no callback of its own. */
  lemma ResyncAlone(junk: seq<byte>, f: seq<byte>)
    requires IsResponse(f) && OneHeader(f, CMD_HEADER) && |junk + f| <= BUF_SIZE && Unbroken(junk + f)
    ensures Feed(Parse, EMPTY, junk + f) == [Call(CmdResponse, |junk|, f)]
  {
    var s := junk + f;
    assert s[..0] == [] && s[0..] == s;
    UnbrokenIs(s);
    GatherAll(Parse, s, 0, 0);
    ResponseShape(f);
    FindsResponse(junk, f);
  }

  /** The same for the sensor's reports: no header to search for, so nothing can hide one. */
  lemma ReportFound(junk: seq<byte>, f: seq<byte>)
    requires IsReport(f)
    ensures Call(ReportFrame, |junk|, f) in Feed(Parse, EMPTY, junk + f)
       <==> Gathers(Parse, After(Parse, EMPTY, junk).buf, f)
  {
    ParseFrames();
    FoundExactly(Parse, Framed, ReportFrame, junk, f);
    FindsReport(After(Parse, EMPTY, junk).buf, f);
  }

  lemma CalibrationShape(f: seq<byte>)
    requires IsCalibration(f)
    ensures MatchAt(f, 0, CAL_HEADER) && EndsWith(f, CAL_FOOTER)
  {
    assert f[..4][0] == f[0] && f[..4][1] == f[1] && f[..4][2] == f[2] && f[..4][3] == f[3];
    var t := f[|f| - 4..];
    assert t[0] == f[|f| - 4] && t[1] == f[|f| - 3] && t[2] == f[|f| - 2] && t[3] == f[|f| - 1];
  }

  /** And for calibration frames. */
  lemma CalibrationFound(junk: seq<byte>, f: seq<byte>)
    requires IsCalibration(f)
    ensures Call(CalibrationFrame, |junk|, f) in Feed(Parse, EMPTY, junk + f)
       <==> Gathers(Parse, After(Parse, EMPTY, junk).buf, f) && OneHeader(f, [0xF4, 0xF3, 0xF2, 0xF1])
  {
    ParseFrames();
    FoundExactly(Parse, Framed, CalibrationFrame, junk, f);
    CalibrationShape(f);
    FindsCalibration(After(Parse, EMPTY, junk).buf, f);
  }

  lemma FooterIs(s: seq<byte>, p: Pattern)
    ensures EndsWith(s, p) <==> |s| >= 4 && s[|s| - 4..] == p
  {
    if |s| >= 4 {
      var t := s[|s| - 4..];
      assert t[0] == s[|s| - 4] && t[1] == s[|s| - 3] && t[2] == s[|s| - 2] && t[3] == s[|s| - 1];
    }
  }

  /** A frame ends with the report's two marks five bytes apart, or with one of the two footers, and nowhere else. */
  lemma FramesEndExactly(s: seq<byte>)
    ensures var report := |s| >= 5 && s[|s| - 5] == 0x6E && s[|s| - 1] == 0x62;
            var response := |s| >= 4 && s[|s| - 4..] == [0x04, 0x03, 0x02, 0x01];
            var calibration := |s| >= 4 && s[|s| - 4..] == [0xF8, 0xF7, 0xF6, 0xF5];
      && (Parse(s).Ended? <==> report || response || calibration)
      && (report ==> Parse(s).kind == ReportFrame)
      && (response ==> Parse(s).kind == CmdResponse)
      && (calibration ==> Parse(s).kind == CalibrationFrame)
  {
    FooterIs(s, CMD_FOOTER);
    FooterIs(s, CAL_FOOTER);
  }

  /** A frame that ends in a part of the stream ends there in all of it. */
  lemma PartEndsFrame(stream: seq<byte>, lo: nat, hi: nat)
    requires lo <= hi <= |stream| && EndsFrame(stream[lo..hi])
    ensures EndsFrame(stream[..hi])
  {
  }

  lemma NoPartEndsFrame(stream: seq<byte>, lo: nat, hi: nat)
    requires Unbroken(stream) && lo <= hi < |stream|
    ensures !Parse(stream[lo..hi]).Ended?
  {
    if EndsFrame(stream[lo..hi]) {
      PartEndsFrame(stream, lo, hi);
    }
  }

  lemma SilentGathers(junk: seq<byte>, f: seq<byte>, rx: Rx)
    requires Unbroken(junk + f) && Holds(rx, junk + f, |junk|)
    ensures Gathers(Parse, rx.buf, f) <==> |rx.buf| + |f| <= BUF_SIZE
  {
    forall k | 0 < k < |f| ensures !Parse(rx.buf + f[..k]).Ended? {
      assert rx.buf + f[..k] == (junk + f)[rx.base..|junk| + k];
      NoPartEndsFrame(junk + f, rx.base, |junk| + k);
    }
  }

  lemma SilentRoom(junk: seq<byte>, f: seq<byte>)
    requires f != [] && Unbroken(junk + f)
    ensures Gathers(Parse, After(Parse, EMPTY, junk).buf, f) <==> |junk| % 256 + |f| <= 256
  {
    var stream := junk + f;
    assert stream[..|junk|] == junk;
    forall lo, hi | 0 <= lo <= hi <= |junk| ensures !Parse(stream[lo..hi]).Ended? {
      NoPartEndsFrame(stream, lo, hi);
    }
    SilentJunkWraps(Parse, stream, |junk|);
    AfterHolds(Parse, stream, |junk|);
    SilentGathers(junk, f, After(Parse, EMPTY, junk));
  }

  /** After bytes that end no frame, however many, a response is lost exactly when it runs into the full buffer. */
  lemma LostByOverflow(junk: seq<byte>, f: seq<byte>)
    requires IsResponse(f) && OneHeader(f, CMD_HEADER) && Unbroken(junk + f)
    ensures Call(CmdResponse, |junk|, f) in Feed(Parse, EMPTY, junk + f) <==> |junk| % 256 + |f| <= 256
  {
    Resync(junk, f);
    SilentRoom(junk, f);
  }

  /** ... and so is a report. */
  lemma ReportLostByOverflow(junk: seq<byte>, f: seq<byte>)
    requires IsReport(f) && Unbroken(junk + f)
    ensures Call(ReportFrame, |junk|, f) in Feed(Parse, EMPTY, junk + f) <==> |junk| % 256 <= 251
  {
    ReportFound(junk, f);
    SilentRoom(junk, f);
  }

  // ---- The code ----

  /** Scans backward through buf[..n] for a four-byte pattern. */
  method MemRFind4(buf: array<byte>, n: nat, pattern: Pattern) returns (r: Option<nat>)
    requires n <= buf.Length
    ensures IsLast(buf[..], n, pattern, r)
  {
    if n < 4 {
      return None;
    }
    var i := n - 4;
    while true
      invariant 0 <= i <= n - 4
      invariant forall k: nat :: i < k && k + 4 <= n ==> !MatchAt(buf[..], k, pattern)
      decreases i
    {
      if buf[i] == pattern[0] && buf[i + 1] == pattern[1] && buf[i + 2] == pattern[2] && buf[i + 3] == pattern[3] {
        return Some(i);
      }
      if i == 0 {
        break;
      }
      i := i - 1;
    }
    return None;
  }

  /** memcpy of `bytes` to frame + pos. */
  method Put(frame: array<byte>, pos: nat, bytes: seq<byte>)
    requires pos + |bytes| <= frame.Length
    modifies frame
    ensures frame[..pos + |bytes|] == old(frame[..pos]) + bytes
  {
    forall i | 0 <= i < |bytes| {
      frame[pos + i] := bytes[i];
    }
  }

  /** Builds a frame in a fixed array, as send_cmd does, and returns the bytes it writes. */
  method SendCmd(cmd: word, data: seq<byte>) returns (written: Option<seq<byte>>)
    ensures written == Encode(cmd, data)
  {
    var payloadLen := 2 + |data|;
    if payloadLen > MAX_DATA {
      return None;
    }
    var frame := new byte[4 + 2 + 2 + MAX_DATA + 4](_ => 0);
    var pos := 0;
    Put(frame, pos, CMD_HEADER);
    pos := pos + 4;
    assert frame[..pos] == CMD_HEADER;
    Put(frame, pos, U16(payloadLen));
    pos := pos + 2;
    Put(frame, pos, U16(cmd));
    pos := pos + 2;
    Put(frame, pos, data);
    pos := pos + |data|;
    Put(frame, pos, CMD_FOOTER);
    pos := pos + 4;
    return Some(frame[..pos]);
  }

  /** The bytes after the filled part of the buffer do not matter to the search. */
  lemma SameLast(all: seq<byte>, n: nat, p: Pattern, r: Option<nat>)
    requires 4 <= n <= |all| && IsLast(all, n - 4, p, r)
    ensures r == FindLast(all[..n], n - 4, p)
  {
    assert forall i: nat :: i + 4 <= n ==> MatchAt(all, i, p) == MatchAt(all[..n], i, p);
    LastIsUnique(all[..n], n - 4, p, r, FindLast(all[..n], n - 4, p));
  }

  /** The reader thread's buffer. */
  class Receiver {
    const buf: array<byte>
    var bufLen: nat
    /** How many bytes came before the ones in the buffer. */
    ghost var base: nat

    ghost predicate Valid()
      reads this
    {
      buf.Length == BUF_SIZE && bufLen < BUF_SIZE
    }

    ghost function State(): Rx
      requires Valid()
      reads this, buf
    {
      Rx(buf[..bufLen], base)
    }

    constructor ()
      ensures Valid() && fresh(buf) && State() == EMPTY
    {
      buf := new byte[BUF_SIZE](_ => 0);
      bufLen, base := 0, 0;
    }

    /** memcmp of the last four of n bytes. */
    method FooterAt(n: nat, p: Pattern) returns (ends: bool)
      requires n <= buf.Length
      ensures ends == EndsWith(buf[..n], p)
    {
      ends := n >= 4 && buf[n - 4] == p[0] && buf[n - 3] == p[1] && buf[n - 2] == p[2] && buf[n - 1] == p[3];
    }

    /** Looks for the header in front of the footer that ends the first n bytes. */
    method HeaderBefore(n: nat, header: Pattern) returns (r: Option<nat>)
      requires 4 <= n <= buf.Length
      ensures r == FindLast(buf[..n], n - 4, header)
    {
      r := MemRFind4(buf, n - 4, header);
      SameLast(buf[..], n, header, r);
      assert buf[..][..n] == buf[..n];
    }

    method ParseBuffer() returns (o: Outcome)
      requires bufLen <= buf.Length
      ensures o == Parse(buf[..bufLen])
    {
      var n := bufLen;
      if n >= 5 && buf[n - 5] == REPORT_FIRST && buf[n - 1] == REPORT_LAST {
        return Ended(ReportFrame, Some(Call(ReportFrame, n - 5, buf[..n][n - 5..])));
      }
      var ends := FooterAt(n, CMD_FOOTER);
      if ends {
        var header := HeaderBefore(n, CMD_HEADER);
        if header.Some? && n - header.value >= MIN_RESPONSE {
          return Ended(CmdResponse, Some(Call(CmdResponse, header.value, buf[..n][header.value..])));
        }
        return Ended(CmdResponse, None);
      }
      ends := FooterAt(n, CAL_FOOTER);
      if ends {
        var header := HeaderBefore(n, CAL_HEADER);
        if header.Some? {
          return Ended(CalibrationFrame, Some(Call(CalibrationFrame, header.value, buf[..n][header.value..])));
        }
        return Ended(CalibrationFrame, None);
      }
      return NoFrame;
    }

    /** Takes one byte; returns the kind of frame it ended and the frame handed to a callback. */
    method OnByte(b: byte) returns (kind: Option<Kind>, call: Option<Call>)
      requires Valid()
      modifies this, buf
      ensures Valid() && State() == old(State()).Next(Parse, b)
      ensures kind == (var o := Parse(old(State()).buf + [b]); if o.Ended? then Some(o.kind) else None)
      ensures old(State()).Calls(Parse, b)
           == if call.Some? then [call.value.(from := old(base) + call.value.from)] else []
    {
      ghost var s := buf[..bufLen] + [b];
      buf[bufLen] := b;
      bufLen := bufLen + 1;
      assert buf[..bufLen] == s;
      var o := ParseBuffer();
      if o.Ended? {
        kind, call := Some(o.kind), o.call;
        base := base + bufLen;
        bufLen := 0;
      } else {
        kind, call := None, None;
      }
      if bufLen >= BUF_SIZE {
        base := base + bufLen;
        bufLen := 0;
      }
    }
  }
}

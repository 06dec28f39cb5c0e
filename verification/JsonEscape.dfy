/**
 json_escape of host_info.c: a NUL-terminated string into a bounded buffer, quotes and backslashes escaped,
 control characters dropped, read back by the string grammar of section 7 of RFC 8259.
 */
module JsonEscape {
  import opened Wrappers

  const QUOTE: byte := 0x22
  const BACKSLASH: byte := 0x5c

  predicate Special(c: byte) {
    c == QUOTE || c == BACKSLASH
  }

  predicate Control(c: byte) {
    c < 0x20
  }

  /** The bytes before the terminator. */
  function CString(s: seq<byte>): (t: seq<byte>)
    requires 0 in s
    ensures |t| < |s| && t == s[..|t|] && s[|t|] == 0 && 0 !in t
  {
    if s[0] == 0 then [] else [s[0]] + CString(s[1..])
  }

  // ---- Escaping ----

  function EscapeByte(c: byte): seq<byte> {
    if Special(c) then [BACKSLASH, c] else if Control(c) then [] else [c]
  }

  function Escape(s: seq<byte>): seq<byte> {
    if s == [] then [] else EscapeByte(s[0]) + Escape(s[1..])
  }

  function Printable(s: seq<byte>): seq<byte> {
    if s == [] then [] else if s[0] < 0x20 then Printable(s[1..]) else [s[0]] + Printable(s[1..])
  }

  lemma AppendAssociates(a: seq<byte>, b: seq<byte>, c: seq<byte>)
    ensures (a + b) + c == a + (b + c)
  {
  }

  lemma {:induction false} EscapeAppends(a: seq<byte>, b: seq<byte>)
    ensures Escape(a + b) == Escape(a) + Escape(b)
  {
    if a == [] {
      assert a + b == b;
    } else {
      EscapeAppends(a[1..], b);
      assert (a + b)[1..] == a[1..] + b;
      AppendAssociates(EscapeByte(a[0]), Escape(a[1..]), Escape(b));
    }
  }

  lemma EscapeSnoc(s: seq<byte>, i: nat)
    requires i < |s|
    ensures Escape(s[..i + 1]) == Escape(s[..i]) + EscapeByte(s[i])
  {
    EscapeAppends(s[..i], [s[i]]);
    assert s[..i + 1] == s[..i] + [s[i]];
  }

  lemma EscapeGrows(s: seq<byte>, m: nat, n: nat)
    requires m <= n <= |s|
    ensures Escape(s[..m]) <= Escape(s[..n])
  {
    EscapeAppends(s[..m], s[m..n]);
    assert s[..n] == s[..m] + s[m..n];
  }

  /** Every byte at most doubles. */
  lemma {:induction false} EscapeAtMostDoubles(s: seq<byte>)
    ensures |Escape(s)| <= 2 * |s|
  {
    if s == [] {
    } else {
      EscapeAtMostDoubles(s[1..]);
    }
  }

  // ---- The bounded printer ----

  /** Two bytes stay free: one for the terminator and one that is never used. */
  function Room(size: nat): nat {
    if size < 2 then 0 else size - 2
  }

  /** out is the longest escaped prefix of the text that fits in the room. */
  ghost predicate LongestFit(text: seq<byte>, room: nat, out: seq<byte>) {
    && (exists n: nat :: n <= |text| && out == Escape(text[..n]))
    && |out| <= room
    && forall m: nat :: m <= |text| && |Escape(text[..m])| <= room ==> Escape(text[..m]) <= out
  }

  lemma StoppedAtLongest(text: seq<byte>, i: nat, room: nat)
    requires i <= |text| && |Escape(text[..i])| <= room
    requires i == |text| || |Escape(text[..i])| == room || |Escape(text[..i + 1])| > room
    ensures LongestFit(text, room, Escape(text[..i]))
  {
    forall m: nat | m <= |text| && |Escape(text[..m])| <= room ensures Escape(text[..m]) <= Escape(text[..i]) {
      if m <= i {
        EscapeGrows(text, m, i);
      } else {
        EscapeGrows(text, i, m);
        EscapeGrows(text, i + 1, m);
      }
    }
  }

  /** dst[j++] = c. */
  method Store(dst: array<byte>, j: nat, c: byte) returns (next: nat)
    requires j < dst.Length
    modifies dst
    ensures next == j + 1 && dst[..next] == old(dst[..j]) + [c]
  {
    dst[j] := c;
    next := j + 1;
  }

  method Print(src: seq<byte>, dst: array<byte>) returns (j: nat)
    requires 0 in src
    modifies dst
    ensures dst.Length == 0 ==> j == 0
    ensures dst.Length > 0 ==> j < dst.Length && dst[j] == 0 && LongestFit(CString(src), Room(dst.Length), dst[..j])
  {
    j := 0;
    if dst.Length == 0 {
      return;
    }
    ghost var text, out := CString(src), [];
    var i := 0;
    while src[i] != 0 && j + 2 < dst.Length
      invariant 0 <= i <= |text| && j <= Room(dst.Length) && dst[..j] == out == Escape(text[..i])
      decreases |text| - i
    {
      var c := src[i];
      EscapeSnoc(text, i);
      if Special(c) {
        if j + 3 >= dst.Length {
          break;
        }
        j := Store(dst, j, BACKSLASH);
        j := Store(dst, j, c);
        assert out + [BACKSLASH] + [c] == out + [BACKSLASH, c];
      } else if !Control(c) {
        j := Store(dst, j, c);
      }
      out := out + EscapeByte(c);
      i := i + 1;
    }
    StoppedAtLongest(text, i, Room(dst.Length));
    dst[j] := 0;
    assert dst[..j] == out;
  }

  /** The whole text comes out exactly when its escape leaves the two bytes, or is empty. */
  lemma CompleteExactly(text: seq<byte>, size: nat, out: seq<byte>)
    requires size > 0 && LongestFit(text, Room(size), out)
    ensures out == Escape(text) <==> Escape(text) == [] || |Escape(text)| + 2 <= size
  {
    assert text[..|text|] == text;
    var n: nat :| n <= |text| && out == Escape(text[..n]);
    EscapeGrows(text, n, |text|);
    if |Escape(text)| <= Room(size) {
      assert Escape(text) <= out;
    }
  }

  lemma {:induction false} QuotesDouble(s: seq<byte>)
    requires forall i :: 0 <= i < |s| ==> s[i] == QUOTE
    ensures |Escape(s)| == 2 * |s|
  {
    if s == [] {
    } else {
      QuotesDouble(s[1..]);
    }
  }

  /** Texts of n bytes are safe in a buffer of this size exactly when it has room for n quotes. */
  lemma LengthsThatFit(n: nat, size: nat)
    requires size > 0
    ensures (forall text: seq<byte> :: |text| == n ==> |Escape(text)| <= Room(size)) <==> n == 0 || 2 * n + 2 <= size
  {
    var worst := seq(n, _ => QUOTE);
    QuotesDouble(worst);
    if n == 0 || 2 * n + 2 <= size {
      forall text: seq<byte> | |text| == n ensures |Escape(text)| <= Room(size) {
        EscapeAtMostDoubles(text);
      }
    } else {
      assert |worst| == n && |Escape(worst)| > Room(size);
    }
  }

  /** The fields of rc_host_info: any hostname and model fits its 256-byte buffer, to the byte; an address needs care. */
  const NAME_FIELD := 128
  const ADDRESS_FIELD := 64
  const NAME_BUFFER := 256
  const ADDRESS_BUFFER := 64

  lemma NamesAlwaysComplete(text: seq<byte>, out: seq<byte>)
    requires |text| < NAME_FIELD && LongestFit(text, Room(NAME_BUFFER), out)
    ensures out == Escape(text)
  {
    EscapeAtMostDoubles(text);
    CompleteExactly(text, NAME_BUFFER, out);
  }

  lemma {:induction false} PlainIsUnchanged(s: seq<byte>)
    requires forall i :: 0 <= i < |s| ==> !Special(s[i]) && !Control(s[i])
    ensures Escape(s) == s
  {
    if s == [] {
    } else {
      PlainIsUnchanged(s[1..]);
    }
  }

  /** An address has nothing to escape, so all but one of the lengths its field can hold come out whole. */
  lemma AddressComplete(text: seq<byte>, out: seq<byte>)
    requires |text| < ADDRESS_FIELD && LongestFit(text, Room(ADDRESS_BUFFER), out)
    requires forall i :: 0 <= i < |text| ==> !Special(text[i]) && !Control(text[i])
    ensures out == Escape(text) <==> |text| + 1 < ADDRESS_FIELD
  {
    PlainIsUnchanged(text);
    CompleteExactly(text, ADDRESS_BUFFER, out);
  }

  // ---- Reading it back ----

  /** What follows a backslash, other than a code point. */
  function Unescaped(c: byte): Option<byte> {
    if c == 0x22 || c == 0x5c || c == 0x2f then Some(c)
    else if c == 0x62 then Some(0x08)
    else if c == 0x66 then Some(0x0c)
    else if c == 0x6e then Some(0x0a)
    else if c == 0x72 then Some(0x0d)
    else if c == 0x74 then Some(0x09)
    else None
  }

  function Prepended(c: byte, r: Option<(seq<byte>, seq<byte>)>): Option<(seq<byte>, seq<byte>)> {
    if r.None? then None else Some(([c] + r.value.0, r.value.1))
  }

  /** Reads a string body up to its closing quote: the characters, and what follows the quote. */
  function Read(s: seq<byte>): Option<(seq<byte>, seq<byte>)> {
    if s == [] || s[0] < 0x20 then None
    else if s[0] == 0x22 then Some(([], s[1..]))
    else if s[0] == 0x5c then
      if |s| < 2 || Unescaped(s[1]).None? then None else Prepended(Unescaped(s[1]).value, Read(s[2..]))
    else Prepended(s[0], Read(s[1..]))
  }

  lemma ReadByte(c: byte, tail: seq<byte>)
    ensures Read(EscapeByte(c) + tail) == if Control(c) then Read(tail) else Prepended(c, Read(tail))
  {
    if Special(c) {
      assert (EscapeByte(c) + tail)[2..] == tail;
    } else if Control(c) {
      assert EscapeByte(c) + tail == tail;
    } else {
      assert (EscapeByte(c) + tail)[1..] == tail;
    }
  }

  lemma {:induction false} ReadUpTo(s: seq<byte>, close: seq<byte>, rest: seq<byte>)
    requires close != [] && close[0] == 0x22 && close[1..] == rest
    ensures Read(Escape(s) + close) == Some((Printable(s), rest))
    decreases |s|
  {
    if s == [] {
      assert Escape(s) + close == close;
    } else {
      ReadUpTo(s[1..], close, rest);
      ReadByte(s[0], Escape(s[1..]) + close);
      AppendAssociates(EscapeByte(s[0]), Escape(s[1..]), close);
    }
  }

  /** A JSON reader gets back the printable characters, and the closing quote is the one the printer's caller wrote. */
  lemma ReadBack(s: seq<byte>, rest: seq<byte>)
    ensures Read(Escape(s) + ([0x22] + rest)) == Some((Printable(s), rest))
  {
    assert ([0x22] + rest)[1..] == rest;
    ReadUpTo(s, [0x22] + rest, rest);
  }

  /** Truncated or not, the output is a body a reader ends where it ends: no escape pair is split. */
  lemma OutputReadsAsPrefix(text: seq<byte>, room: nat, out: seq<byte>, rest: seq<byte>)
    requires LongestFit(text, room, out)
    ensures exists n: nat :: n <= |text| && Read(out + ([0x22] + rest)) == Some((Printable(text[..n]), rest))
  {
    var n: nat :| n <= |text| && out == Escape(text[..n]);
    ReadBack(text[..n], rest);
  }

  // ---- UTF-8 ----

  predicate Trail(s: seq<byte>, i: nat) {
    i < |s| && 0x80 <= s[i] <= 0xbf
  }

  /** Length of the well-formed sequence at the start, or 0. */
  function Lead(s: seq<byte>): (n: nat)
    ensures n <= |s|
  {
    if s == [] then 0
    else if s[0] < 0x80 then 1
    else if 0xc2 <= s[0] <= 0xdf then if Trail(s, 1) then 2 else 0
    else if 0xe0 <= s[0] <= 0xef then
      if Trail(s, 1) && Trail(s, 2) && (s[0] == 0xe0 ==> s[1] >= 0xa0) && (s[0] == 0xed ==> s[1] < 0xa0) then 3 else 0
    else if 0xf0 <= s[0] <= 0xf4 then
      if Trail(s, 1) && Trail(s, 2) && Trail(s, 3) && (s[0] == 0xf0 ==> s[1] >= 0x90) && (s[0] == 0xf4 ==> s[1] < 0x90)
      then 4 else 0
    else 0
  }

  predicate Utf8(s: seq<byte>) {
    s == [] || (Lead(s) > 0 && Utf8(s[Lead(s)..]))
  }

  /** The edges of UTF-8: no overlong forms, no surrogates, nothing past U+10FFFF. */
  lemma Utf8Edges()
    ensures Lead([0xc2, 0x80]) == 2 && Lead([0xe0, 0xa0, 0x80]) == 3 && Lead([0xf4, 0x8f, 0xbf, 0xbf]) == 4
    ensures Lead([0xc1, 0xbf]) == 0 && Lead([0xe0, 0x9f, 0xbf]) == 0 && Lead([0xf0, 0x8f, 0xbf, 0xbf]) == 0
    ensures Lead([0xed, 0xa0, 0x80]) == 0 && Lead([0xf4, 0x90, 0x80, 0x80]) == 0 && Lead([0xc2, 0xc0]) == 0
  {
  }

  /** The bytes of a well-formed sequence, and whatever comes after it. */
  lemma LeadOfPrefix(a: seq<byte>, b: seq<byte>)
    requires a != [] && Lead(a) == |a|
    ensures Lead(a + b) == |a| && (a + b)[|a|..] == b
  {
    assert forall i :: 0 <= i < |a| ==> (a + b)[i] == a[i];
  }

  lemma Utf8Prepend(a: seq<byte>, b: seq<byte>)
    requires a != [] && Lead(a) == |a| && Utf8(b)
    ensures Utf8(a + b)
  {
    LeadOfPrefix(a, b);
  }

  lemma LeadIsPlain(s: seq<byte>)
    requires Lead(s) > 1
    ensures var a := s[..Lead(s)]; Lead(a) == |a| && Escape(a) == a
  {
    PlainIsUnchanged(s[..Lead(s)]);
  }

  lemma AsciiKeepsUtf8(c: byte, t: seq<byte>)
    requires c < 0x80 && Utf8(t)
    ensures Utf8(EscapeByte(c) + t)
  {
    if Special(c) {
      Utf8Prepend([c], t);
      Utf8Prepend([BACKSLASH], [c] + t);
      assert [BACKSLASH] + ([c] + t) == EscapeByte(c) + t;
    } else if Control(c) {
      assert EscapeByte(c) + t == t;
    } else {
      Utf8Prepend([c], t);
    }
  }

  /** Escaping a well-formed text leaves it well-formed. */
  lemma {:induction false} EscapeKeepsUtf8(s: seq<byte>)
    requires Utf8(s)
    ensures Utf8(Escape(s))
    decreases |s|
  {
    if s == [] {
    } else {
      var n := Lead(s);
      var a, b := s[..n], s[n..];
      EscapeKeepsUtf8(b);
      if n == 1 {
        AsciiKeepsUtf8(s[0], Escape(b));
      } else {
        LeadIsPlain(s);
        assert s == a + b;
        EscapeAppends(a, b);
        Utf8Prepend(a, Escape(b));
      }
    }
  }

  lemma LeadIsLead(s: seq<byte>)
    requires s != [] && Lead(s) > 0
    ensures Lead(s[..Lead(s)]) == Lead(s)
  {
  }

  /** Bytes that begin no character spoil any text they end. */
  lemma {:induction false} BrokenTail(s: seq<byte>, r: seq<byte>)
    requires Utf8(s) && r != [] && Lead(r) == 0
    ensures !Utf8(s + r)
    decreases |s|
  {
    if s == [] {
      assert s + r == r;
    } else {
      var n := Lead(s);
      BrokenTail(s[n..], r);
      LeadOfPrefix(s[..n], s[n..] + r);
      LeadIsLead(s);
      AppendAssociates(s[..n], s[n..], r);
      assert s[..n] + s[n..] == s;
    }
  }

  /** Part of a character is not one, and each of its bytes but the first trails. */
  lemma PartOfLead(s: seq<byte>, n: nat)
    requires 0 < n < Lead(s)
    ensures Lead(s[..n]) == 0 && Escape(s[..n]) == s[..n] && Trail(s, n)
  {
    PlainIsUnchanged(s[..n]);
  }

  lemma LongIsPlain(a: seq<byte>)
    requires |a| > 1 && Lead(a) == |a|
    ensures Escape(a) == a
  {
    PlainIsUnchanged(a);
  }

  lemma LeadPeels(a: seq<byte>, t: seq<byte>)
    requires a != [] && Lead(a) == |a|
    ensures Utf8(a + t) <==> Utf8(t)
  {
    LeadOfPrefix(a, t);
  }

  lemma AsciiPeels(c: byte, t: seq<byte>)
    requires c < 0x80
    ensures Utf8(EscapeByte(c) + t) <==> Utf8(t)
  {
    if Special(c) {
      LeadPeels([c], t);
      LeadPeels([BACKSLASH], [c] + t);
      assert [BACKSLASH] + ([c] + t) == EscapeByte(c) + t;
    } else if Control(c) {
      assert EscapeByte(c) + t == t;
    } else {
      LeadPeels([c], t);
    }
  }

  /** A whole character in front makes no difference. */
  lemma PeelLead(a: seq<byte>, b: seq<byte>)
    requires a != [] && Lead(a) == |a|
    ensures Utf8(Escape(a + b)) <==> Utf8(Escape(b))
  {
    if |a| == 1 {
      assert (a + b)[1..] == b;
      AsciiPeels(a[0], Escape(b));
    } else {
      EscapeAppends(a, b);
      LongIsPlain(a);
      LeadPeels(a, Escape(b));
    }
  }

  /** A cut of a well-formed text, escaped, is well-formed exactly when it does not fall before a trailing byte. */
  lemma {:induction false} CutKeepsUtf8(text: seq<byte>, n: nat)
    requires Utf8(text) && n <= |text|
    ensures Utf8(Escape(text[..n])) <==> n == |text| || !Trail(text, n)
    decreases |text|
  {
    var k := Lead(text);
    if n == 0 {
      assert text[..n] == [];
    } else if n < k {
      PartOfLead(text, n);
    } else {
      var a, b := text[..k], text[k..];
      CutKeepsUtf8(b, n - k);
      assert text[..n] == a + b[..n - k];
      LeadIsLead(text);
      PeelLead(a, b[..n - k]);
    }
  }

  /** The longest prefix whose escape fits the room is n bytes long. */
  predicate FittingLength(text: seq<byte>, room: nat, n: nat) {
    n <= |text| && |Escape(text[..n])| <= room && (n == |text| || |Escape(text[..n + 1])| > room)
  }

  lemma FitIsEscape(text: seq<byte>, room: nat, out: seq<byte>, n: nat)
    requires LongestFit(text, room, out) && FittingLength(text, room, n)
    ensures out == Escape(text[..n])
  {
    var m: nat :| m <= |text| && out == Escape(text[..m]);
    if m > n {
      EscapeGrows(text, n + 1, m);
      assert false;
    }
    EscapeGrows(text, m, n);
  }

  /**
   A well-formed text is printed well-formed exactly when what fits of it ends with a whole character: all of it
   fits, or the first byte left out is not a trailing one.
   */
  lemma OutputIsUtf8Exactly(text: seq<byte>, room: nat, out: seq<byte>, n: nat)
    requires Utf8(text) && LongestFit(text, room, out) && FittingLength(text, room, n)
    ensures Utf8(out) <==> n == |text| || !Trail(text, n)
  {
    FitIsEscape(text, room, out, n);
    CutKeepsUtf8(text, n);
  }

  /** Hostname and model come out well-formed whenever they are. */
  lemma NamesStayUtf8(text: seq<byte>, out: seq<byte>)
    requires |text| < NAME_FIELD && Utf8(text) && LongestFit(text, Room(NAME_BUFFER), out)
    ensures Utf8(out)
  {
    NamesAlwaysComplete(text, out);
    EscapeKeepsUtf8(text);
  }

  lemma {:induction false} AsciiIsUtf8(s: seq<byte>)
    requires forall i :: 0 <= i < |s| ==> s[i] < 0x80
    ensures Utf8(s)
    decreases |s|
  {
    if s == [] {
    } else {
      AsciiIsUtf8(s[1..]);
    }
  }

  /** An address is in ASCII, and stays it. */
  lemma AddressStaysUtf8(text: seq<byte>, out: seq<byte>)
    requires (forall i :: 0 <= i < |text| ==> text[i] < 0x80) && LongestFit(text, Room(ADDRESS_BUFFER), out)
    ensures Utf8(out)
  {
    var m: nat :| m <= |text| && out == Escape(text[..m]);
    AsciiIsUtf8(text[..m]);
    EscapeKeepsUtf8(text[..m]);
  }

  lemma {:induction false} Utf8Joins(a: seq<byte>, b: seq<byte>)
    requires (forall i :: 0 <= i < |a| ==> a[i] < 0x80) && Utf8(b)
    ensures Utf8(a + b)
    decreases |a|
  {
    if a == [] {
      assert a + b == b;
    } else {
      Utf8Joins(a[1..], b);
      Utf8Prepend([a[0]], a[1..] + b);
      AppendAssociates([a[0]], a[1..], b);
      assert [a[0]] + a[1..] == a;
    }
  }

  /** Only a 63-byte text unlike any address would be split there: 61 letters and a two-byte one. */
  lemma AddressBufferCanSplit(out: seq<byte>)
    requires LongestFit(seq(61, _ => 0x61) + [0xc3, 0xa9], Room(ADDRESS_BUFFER), out)
    ensures Utf8(seq(61, _ => 0x61) + [0xc3, 0xa9]) && !Utf8(out)
  {
    var letters: seq<byte> := seq(61, _ => 0x61);
    var text := letters + [0xc3, 0xa9];
    assert Lead([0xc3, 0xa9]) == 2;
    Utf8Joins(letters, [0xc3, 0xa9]);
    PlainIsUnchanged(text);
    PlainIsUnchanged(text[..62]);
    assert text[..63] == text;
    OutputIsUtf8Exactly(text, Room(ADDRESS_BUFFER), out, 62);
  }
}

/** Percent-escaping in ngx_string.c: section 2.1 of RFC 3986. */
module Escape {

  type Byte = bv8

  /** NGX_ESCAPE_URI and the rest. */
  datatype Map = Uri | Args | UriComponent | Html | Refresh | Memcached | MailAuth

  const PERCENT: Byte := 0x25

  // ----- which bytes are escaped

  /** The eight words of each table. */
  function Word(m: Map, i: Byte): bv32 {
    if i == 0 then 0xFFFFFFFF
    else if i == 1 then
      (match m
       case Uri => 0x80000029 case Args => 0x88000869 case UriComponent => 0xFC009FFF case Html => 0x000000AD
       case Refresh => 0x00000085 case Memcached => 0x00000021 case MailAuth => 0x00000021)
    else if i == 2 then (if m == UriComponent then 0x78000001 else 0)
    else if i == 3 then
      (match m case UriComponent => 0xB8000001 case Memcached => 0 case MailAuth => 0 case _ => 0x80000000)
    else if m == Memcached || m == MailAuth then 0 else 0xFFFFFFFF
  }

  /** The bit test of ngx_escape_uri. */
  predicate Marked(m: Map, c: Byte) {
    Word(m, c >> 5) & ((1 as bv32) << (c & 0x1F)) != 0
  }

  predicate Unreserved(c: Byte) {
    || 0x30 <= c <= 0x39 || 0x41 <= c <= 0x5A || 0x61 <= c <= 0x7A               // 0-9 A-Z a-z
    || c == 0x2D || c == 0x2E || c == 0x5F || c == 0x7E                         // - . _ ~
  }

  /** What the tables stand for, in characters: the space, the control characters, and what each use adds. */
  predicate Escapes(m: Map, c: Byte) {
    match m
    case Uri => c <= 0x20 || c >= 0x7F || c == 0x23 || c == 0x25 || c == 0x3F                  // # % ?
    case Args => c <= 0x20 || c >= 0x7F || c == 0x23 || c == 0x25 || c == 0x3F                 // # % ?
                 || c == 0x26 || c == 0x2B || c == 0x3B                                        // & + ;
    case UriComponent => !Unreserved(c)
    case Html => c <= 0x20 || c >= 0x7F || c == 0x22 || c == 0x23 || c == 0x25 || c == 0x27    // " # % '
    case Refresh => c <= 0x20 || c >= 0x7F || c == 0x22 || c == 0x27                           // " '
    case Memcached => c <= 0x20 || c == 0x25                                                   // %
    case MailAuth => c <= 0x20 || c == 0x25                                                    // %
  }

  lemma TablesMean(m: Map, c: Byte)
    ensures Marked(m, c) <==> Escapes(m, c)
  {
    match m
    case Uri =>
    case Args =>
    case UriComponent =>
    case Html =>
    case Refresh =>
    case Memcached =>
    case MailAuth =>
  }

  // ----- escaping

  /** "0123456789ABCDEF" */
  function Hex(v: Byte): (c: Byte)
    requires v < 16
  {
    if v < 10 then 0x30 + v else 0x41 + (v - 10)
  }

  function Quoted(c: Byte): (q: seq<Byte>)
    ensures |q| == 3
  {
    [PERCENT, Hex(c >> 4), Hex(c & 0xF)]
  }

  function Piece(m: Map, c: Byte): (p: seq<Byte>)
    ensures 1 <= |p| <= 3
  {
    if Escapes(m, c) then Quoted(c) else [c]
  }

  function Escaped(m: Map, s: seq<Byte>): seq<Byte> {
    if s == [] then [] else Piece(m, s[0]) + Escaped(m, s[1..])
  }

  /** How many bytes of `s` are escaped. */
  function Count(m: Map, s: seq<Byte>): nat {
    if s == [] then 0 else (if Escapes(m, s[0]) then 1 else 0) + Count(m, s[1..])
  }

  /** The counting pass foretells how long the writing pass makes the text. */
  lemma {:induction false} EscapedSize(m: Map, s: seq<Byte>)
    ensures |Escaped(m, s)| == |s| + 2 * Count(m, s)
  {
    if s != [] {
      EscapedSize(m, s[1..]);
    }
  }

  lemma EscapedNext(m: Map, s: seq<Byte>, k: nat)
    requires k < |s|
    ensures Escaped(m, s[k..]) == Piece(m, s[k]) + Escaped(m, s[k + 1..])
    ensures Count(m, s[k..]) == (if Escapes(m, s[k]) then 1 else 0) + Count(m, s[k + 1..])
  {
    assert s[k..][1..] == s[k + 1..];
  }

  /** ngx_escape_uri with a null destination */
  method CountEscapes(src: seq<Byte>, m: Map) returns (n: nat)
    ensures n == Count(m, src)
  {
    hide Escapes, Marked, Piece;
    n := 0;
    var k := 0;
    while k < |src|
      invariant 0 <= k <= |src| && Count(m, src) == n + Count(m, src[k..])
    {
      TablesMean(m, src[k]);
      EscapedNext(m, src, k);
      if Marked(m, src[k]) {
        n := n + 1;
      }
      k := k + 1;
    }
  }

  /** One round of the writing loop. */
  method PutPiece(dst: array<Byte>, start: nat, c: Byte, m: Map) returns (d: nat)
    requires start + |Piece(m, c)| <= dst.Length
    modifies dst
    ensures d == start + |Piece(m, c)|
    ensures dst[..d] == old(dst[..start]) + Piece(m, c) && dst[d..] == old(dst[d..])
  {
    hide Escapes, Marked, Hex;
    TablesMean(m, c);
    d := start;
    if Marked(m, c) {
      dst[d] := PERCENT;
      dst[d + 1] := Hex(c >> 4);
      dst[d + 2] := Hex(c & 0xF);
      d := d + 3;
    } else {
      dst[d] := c;
      d := d + 1;
    }
  }

  /** ngx_escape_uri */
  method EscapeUri(dst: array<Byte>, src: seq<Byte>, m: Map) returns (d: nat)
    requires |src| + 2 * Count(m, src) <= dst.Length
    modifies dst
    ensures d == |src| + 2 * Count(m, src) && dst[..d] == Escaped(m, src) && dst[d..] == old(dst[d..])
  {
    hide Piece, Count, Escaped;
    EscapedSize(m, src);
    EscapedNone(m);
    d := 0;
    var k := 0;
    while k < |src|
      invariant 0 <= k <= |src| && d <= dst.Length
      invariant Escaped(m, src) == dst[..d] + Escaped(m, src[k..])
      invariant dst[d..] == old(dst[d..])
    {
      EscapedNext(m, src, k);
      d := PutPiece(dst, d, src[k], m);
      k := k + 1;
    }
    assert src[k..] == [];
  }

  lemma EscapedNone(m: Map)
    ensures Escaped(m, []) == []
  {
  }

  // ----- unescaping

  datatype State = Usual | SawPercent | SawDigit(q: Byte)

  /** What reading one byte does: the bytes it puts out, the next state, and whether decoding stops. */
  datatype Move = Move(out: seq<Byte>, next: State, stop: bool)

  predicate IsHex(c: Byte) { 0x30 <= c <= 0x39 || 0x61 <= (c | 0x20) <= 0x66 }

  function HexValue(c: Byte): (v: Byte)
    requires IsHex(c)
    ensures v < 16
  {
    if 0x30 <= c <= 0x39 then c - 0x30 else (c | 0x20) - 0x61 + 10
  }

  function Joined(q: Byte, c: Byte): Byte
    requires IsHex(q) && IsHex(c)
  {
    (HexValue(q) << 4) + HexValue(c)
  }

  const QUESTION: Byte := 0x3F

  /** The two flags are NGX_UNESCAPE_URI and NGX_UNESCAPE_REDIRECT. */
  function Read(st: State, c: Byte, uri: bool, redirect: bool): (r: Move)
    requires st.SawDigit? ==> IsHex(st.q)
    ensures r.next.SawDigit? ==> IsHex(r.next.q)
  {
    match st
    case Usual =>
      if c == QUESTION && (uri || redirect) then Move([c], Usual, true)
      else if c == PERCENT then Move([], SawPercent, false)
      else Move([c], Usual, false)
    case SawPercent =>
      if IsHex(c) then Move([], SawDigit(c), false) else Move([c], Usual, false)
    case SawDigit(q) =>
      if !IsHex(c) then Move([], Usual, false)
      else
        var v := Joined(q, c);
        var letter := !(0x30 <= c <= 0x39);
        if letter && v == QUESTION && (uri || redirect) then Move([v], Usual, true)
        else if redirect && !(letter && uri) && !(PERCENT < v < 0x7F) then Move([PERCENT, q, c], Usual, false)
        else Move([v], Usual, false)
  }

  predicate Fine(st: State) { st.SawDigit? ==> IsHex(st.q) }

  /** What decoding `s` from state `st` puts out, and how many bytes it reads. */
  function Unescaped(s: seq<Byte>, st: State, uri: bool, redirect: bool): seq<Byte>
    requires Fine(st)
  {
    if s == [] then []
    else
      var r := Read(st, s[0], uri, redirect);
      if r.stop then r.out else r.out + Unescaped(s[1..], r.next, uri, redirect)
  }

  function Consumed(s: seq<Byte>, st: State, uri: bool, redirect: bool): nat
    requires Fine(st)
  {
    if s == [] then 0
    else
      var r := Read(st, s[0], uri, redirect);
      if r.stop then 1 else 1 + Consumed(s[1..], r.next, uri, redirect)
  }

  /** Reading `a` and then `b`, when flags that stop early are off. */
  lemma {:induction false} UnescapedPlain(c: Byte, s: seq<Byte>, st: State)
    requires Fine(st)
    ensures var r := Read(st, c, false, false);
      !r.stop && Unescaped([c] + s, st, false, false) == r.out + Unescaped(s, r.next, false, false)
  {
    assert ([c] + s)[1..] == s;
  }

  lemma HexBack(c: Byte)
    ensures var h, l := Hex(c >> 4), Hex(c & 0xF);
      IsHex(h) && IsHex(l) && h != PERCENT && l != PERCENT && Joined(h, l) == c
  {
  }

  /** A quoted byte, read from the usual state. */
  lemma {:induction false} UnquotedBack(c: Byte, s: seq<Byte>)
    ensures Unescaped(Quoted(c) + s, Usual, false, false) == [c] + Unescaped(s, Usual, false, false)
  {
    hide Hex, IsHex, Joined, Unescaped;
    HexBack(c);
    var h, l := Hex(c >> 4), Hex(c & 0xF);
    assert Quoted(c) + s == [PERCENT] + ([h] + ([l] + s));
    UnescapedPlain(PERCENT, [h] + ([l] + s), Usual);
    UnescapedPlain(h, [l] + s, SawPercent);
    UnescapedPlain(l, s, SawDigit(h));
  }

  /** Decoding undoes escaping under every map that escapes the percent sign. */
  lemma {:induction false} UnescapeUndoesEscape(m: Map, s: seq<Byte>)
    requires m != Refresh
    ensures Unescaped(Escaped(m, s), Usual, false, false) == s
  {
    if s == [] {
    } else {
      UnescapeUndoesEscape(m, s[1..]);
      PieceBack(m, s[0], Escaped(m, s[1..]));
      assert s == [s[0]] + s[1..];
    }
  }

  lemma {:induction false} PieceBack(m: Map, c: Byte, s: seq<Byte>)
    requires c == PERCENT ==> Escapes(m, c)
    ensures Unescaped(Piece(m, c) + s, Usual, false, false) == [c] + Unescaped(s, Usual, false, false)
  {
    if Escapes(m, c) {
      UnquotedBack(c, s);
    } else {
      UnescapedPlain(c, s, Usual);
    }
  }

  // ----- the one map that leaves the percent sign alone

  /** Plain bytes weigh 2 and bytes that the refresh map escapes weigh 5: less than the plain text of their escape. */
  function Weight(s: seq<Byte>): nat { 2 * |s| + 3 * Count(Refresh, s) }

  lemma {:induction false} WeightJoins(s: seq<Byte>, t: seq<Byte>)
    ensures Weight(s + t) == Weight(s) + Weight(t)
  {
    if s == [] {
      assert s + t == t;
    } else {
      WeightJoins(s[1..], t);
      assert (s + t)[1..] == s[1..] + t;
    }
  }

  lemma WeightOne(c: Byte)
    ensures Weight([c]) == (if Escapes(Refresh, c) then 5 else 2) && Weight([]) == 0
  {
    hide Escapes;
    assert [c][1..] == [] && Count(Refresh, []) == 0;
  }

  /** What has been read but not put out yet. */
  function Pending(st: State): nat { match st case Usual => 0 case SawPercent => 2 case SawDigit(_) => 4 }

  /** The state after the escape of `c` has been read from state `st`, and what that put out. */
  function After(st: State, c: Byte): (r: (seq<Byte>, State))
    requires Fine(st)
    ensures Fine(r.1)
  {
    if !Escapes(Refresh, c) then var r := Read(st, c, false, false); (r.out, r.next)
    else
      match st
      case Usual => ([c], Usual)
      case SawPercent => (Quoted(c), Usual)
      case SawDigit(_) => (Quoted(c)[1..], Usual)
  }

  lemma {:induction false} AfterReads(st: State, c: Byte, s: seq<Byte>)
    requires Fine(st)
    ensures var (out, next) := After(st, c);
      Unescaped(Piece(Refresh, c) + s, st, false, false) == out + Unescaped(s, next, false, false)
  {
    hide Hex, Joined, Unescaped, Escapes;
    if !Escapes(Refresh, c) {
      UnescapedPlain(c, s, st);
    } else if st == Usual {
      UnquotedBack(c, s);
    } else {
      var h, l := Hex(c >> 4), Hex(c & 0xF);
      HexPlain(c);
      assert Quoted(c) + s == [PERCENT] + ([h] + ([l] + s));
      UnescapedPlain(PERCENT, [h] + ([l] + s), st);
      UnescapedPlain(h, [l] + s, Usual);
      UnescapedPlain(l, s, Usual);
    }
  }

  lemma HexPlain(c: Byte)
    ensures var h, l := Hex(c >> 4), Hex(c & 0xF);
      && h != PERCENT && l != PERCENT && !IsHex(PERCENT)
      && !Escapes(Refresh, h) && !Escapes(Refresh, l) && !Escapes(Refresh, PERCENT)
  {
  }

  /** A step never gains weight, and while something is pending it does not use it all up. */
  lemma {:induction false} AfterDrops(st: State, c: Byte)
    requires Fine(st)
    ensures var (out, next) := After(st, c);
      && Weight(out) + Pending(next) <= Weight([c]) + Pending(st)
      && ((st != Usual || c == PERCENT) && next == Usual ==> Weight(out) < Weight([c]) + Pending(st))
  {
    hide Hex, Joined, Escapes;
    WeightOne(c);
    HexPlain(c);
    if !Escapes(Refresh, c) {
      if st.SawDigit? && IsHex(c) { WeightOne(Joined(st.q, c)); }
    } else if st != Usual {
      var h, l := Hex(c >> 4), Hex(c & 0xF);
      WeightOne(PERCENT);
      WeightOne(h);
      WeightOne(l);
      WeightJoins([PERCENT], [h, l]);
      WeightJoins([h], [l]);
      assert Quoted(c) == [PERCENT] + [h, l] && [h, l] == [h] + [l] && Quoted(c)[1..] == [h, l];
    }
  }

  lemma {:induction false} RefreshDrops(s: seq<Byte>, st: State)
    requires Fine(st)
    ensures var out := Unescaped(Escaped(Refresh, s), st, false, false);
      && Weight(out) <= Weight(s) + Pending(st)
      && (st != Usual || PERCENT in s ==> Weight(out) < Weight(s) + Pending(st))
  {
    hide Escapes, Piece, Weight, After, Read;
    if s == [] {
      WeightOne(0);
    } else {
      var (out, next) := After(st, s[0]);
      var rest := Unescaped(Escaped(Refresh, s[1..]), next, false, false);
      AfterReads(st, s[0], Escaped(Refresh, s[1..]));
      AfterDrops(st, s[0]);
      RefreshDrops(s[1..], next);
      WeightJoins(out, rest);
      WeightJoins([s[0]], s[1..]);
      assert s == [s[0]] + s[1..];
    }
  }

  /** Under the refresh map decoding undoes escaping exactly when the text holds no percent sign. */
  lemma {:induction false} RefreshUndone(s: seq<Byte>)
    ensures Unescaped(Escaped(Refresh, s), Usual, false, false) == s <==> PERCENT !in s
  {
    if PERCENT in s {
      RefreshDrops(s, Usual);
    } else if s != [] {
      RefreshUndone(s[1..]);
      PieceBack(Refresh, s[0], Escaped(Refresh, s[1..]));
      assert s == [s[0]] + s[1..];
    }
  }

  lemma ReadAgrees(st: State, c: Byte)
    requires Fine(st)
    ensures var r, plain := Read(st, c, true, false), Read(st, c, false, false);
      && r.out == plain.out && r.next == plain.next && !plain.stop && (r.stop ==> r.out == [QUESTION])
  {
    hide Joined;
  }

  /** Decoding a URI is plain decoding of the part it reads, and it stops short only after a question mark. */
  lemma {:induction false} UriReadsPrefix(s: seq<Byte>, st: State)
    requires Fine(st)
    ensures var n, out := Consumed(s, st, true, false), Unescaped(s, st, true, false);
      n <= |s| && out == Unescaped(s[..n], st, false, false) && (n < |s| ==> out != [] && out[|out| - 1] == QUESTION)
  {
    hide Read, IsHex;
    if s != [] {
      ReadAgrees(st, s[0]);
      var r, n := Read(st, s[0], true, false), Consumed(s, st, true, false);
      if r.stop {
        assert s[..1][1..] == [];
      } else {
        UriReadsPrefix(s[1..], r.next);
        assert s[..n][1..] == s[1..][..n - 1];
      }
    }
  }

  /** Every percent sign is followed by two hex digits. */
  predicate WellQuoted(s: seq<Byte>) {
    s == [] ||
    if s[0] != PERCENT then WellQuoted(s[1..])
    else |s| >= 3 && IsHex(s[1]) && IsHex(s[2]) && WellQuoted(s[3..])
  }

  /** What the redirect decoder does with one quoted byte. */
  lemma {:induction false} RedirectQuoted(q: Byte, c: Byte, s: seq<Byte>)
    requires IsHex(q) && IsHex(c)
    ensures var t, r := [PERCENT, q, c] + s, Read(SawDigit(q), c, false, true);
      && Unescaped(t, Usual, false, true) == (if r.stop then r.out else r.out + Unescaped(s, Usual, false, true))
      && Consumed(t, Usual, false, true) == (if r.stop then 3 else 3 + Consumed(s, Usual, false, true))
      && Unescaped(t, Usual, false, false) == [Joined(q, c)] + Unescaped(s, Usual, false, false)
  {
    hide Joined, IsHex, Unescaped, Consumed;
    assert [PERCENT, q, c] + s == [PERCENT] + ([q] + ([c] + s));
    UnescapedOne(PERCENT, [q] + ([c] + s), Usual, false, true);
    UnescapedOne(q, [c] + s, SawPercent, false, true);
    UnescapedOne(c, s, SawDigit(q), false, true);
    UnescapedPlain(PERCENT, [q] + ([c] + s), Usual);
    UnescapedPlain(q, [c] + s, SawPercent);
    UnescapedPlain(c, s, SawDigit(q));
  }

  lemma {:induction false} UnescapedOne(c: Byte, s: seq<Byte>, st: State, uri: bool, redirect: bool)
    requires Fine(st)
    ensures var r := Read(st, c, uri, redirect);
      && Unescaped([c] + s, st, uri, redirect) ==
        (if r.stop then r.out else r.out + Unescaped(s, r.next, uri, redirect))
      && Consumed([c] + s, st, uri, redirect) == (if r.stop then 1 else 1 + Consumed(s, r.next, uri, redirect))
  {
    assert ([c] + s)[1..] == s;
  }

  lemma PlainNext(c: Byte, s: seq<Byte>)
    requires c != PERCENT
    ensures Unescaped([c] + s, Usual, false, false) == [c] + Unescaped(s, Usual, false, false)
    ensures Unescaped([], Usual, false, false) == []
  {
    UnescapedPlain(c, s, Usual);
  }

  lemma RedirectKeeps(q: Byte, c: Byte)
    requires IsHex(q) && IsHex(c)
    ensures var v, r := Joined(q, c), Read(SawDigit(q), c, false, true);
      if r.stop then r.out == [v] && v == QUESTION else (r.out == [v] && v != PERCENT) || r.out == [PERCENT, q, c]
    ensures Read(SawDigit(q), c, false, true).next == Usual
  {
    hide Joined;
  }

  lemma {:induction false} RedirectPlain(s: seq<Byte>)
    requires s != [] && s[0] != PERCENT
    ensures Unescaped(s, Usual, false, true) ==
      [s[0]] + if s[0] == QUESTION then [] else Unescaped(s[1..], Usual, false, true)
    ensures Consumed(s, Usual, false, true) == 1 + if s[0] == QUESTION then 0 else Consumed(s[1..], Usual, false, true)
  {
  }

  /** Decoding for a redirect leaves quoted what could be misread: decoding the rest afterwards gives the plain
      decoding of the part that was read. */
  lemma {:induction false} RedirectThenPlain(s: seq<Byte>)
    requires WellQuoted(s)
    ensures var n := Consumed(s, Usual, false, true);
      n <= |s| && Unescaped(Unescaped(s, Usual, false, true), Usual, false, false) ==
        Unescaped(s[..n], Usual, false, false)
    decreases |s|
  {
    hide Joined, IsHex, Read, Unescaped, Consumed;
    if s == [] {
      NothingRead();
    } else if s[0] != PERCENT {
      var rest := if s[0] == QUESTION then [] else s[1..];
      var n, out := Consumed(rest, Usual, false, true), Unescaped(rest, Usual, false, true);
      NothingRead();
      RedirectPlain(s);
      if s[0] != QUESTION { RedirectThenPlain(rest); }
      PlainNext(s[0], out);
      PlainNext(s[0], rest[..n]);
      assert s[..n + 1] == [s[0]] + rest[..n];
    } else {
      var q, c, rest := s[1], s[2], s[3..];
      var r := Read(SawDigit(q), c, false, true);
      assert s == [PERCENT, q, c] + rest;
      RedirectQuoted(q, c, rest);
      RedirectKeeps(q, c);
      NothingRead();
      if r.stop {
        PlainNext(QUESTION, []);
        RedirectQuoted(q, c, []);
        assert s[..3] == [PERCENT, q, c] + [] && [QUESTION] + [] == [QUESTION];
      } else {
        var n, out := Consumed(rest, Usual, false, true), Unescaped(rest, Usual, false, true);
        RedirectThenPlain(rest);
        RedirectQuoted(q, c, rest[..n]);
        RedirectQuoted(q, c, out);
        assert s[..3 + n] == [PERCENT, q, c] + rest[..n];
        if r.out == [Joined(q, c)] && Joined(q, c) != PERCENT { PlainNext(Joined(q, c), out); }
      }
    }
  }

  lemma NothingRead()
    ensures Unescaped([], Usual, false, true) == [] && Unescaped([], Usual, false, false) == []
    ensures Consumed([], Usual, false, true) == 0
  {
  }

  // ----- decoding in memory, in place or not

  /** Decoding puts out no more bytes than it has read; the pending bytes are still to come. */
  function Owed(st: State): nat { match st case Usual => 0 case SawPercent => 1 case SawDigit(_) => 2 }

  lemma {:induction false} ReadBound(st: State, c: Byte, uri: bool, redirect: bool)
    requires Fine(st)
    ensures var r := Read(st, c, uri, redirect); |r.out| + Owed(r.next) <= Owed(st) + 1
  {
  }

  /** `*d++ = b` */
  method Put(mem: array<Byte>, start: nat, b: Byte) returns (d: nat)
    requires start < mem.Length
    modifies mem
    ensures d == start + 1 && mem[start] == b
    ensures forall x :: 0 <= x < mem.Length && x != start ==> mem[x] == old(mem[x])
  {
    mem[start] := b;
    d := start + 1;
  }

  /** `*d++ = '%'; *d++ = *(s - 2); *d++ = *(s - 1)`, where `s` is here the position of the last byte read. */
  method PutBack(mem: array<Byte>, start: nat, s: nat) returns (d: nat)
    requires start + 3 <= mem.Length && 1 <= s < mem.Length && (start + 2 <= s || s < start)
    modifies mem
    ensures d == start + 3 && mem[start..d] == [PERCENT, old(mem[s - 1]), old(mem[s])]
    ensures forall x :: 0 <= x < mem.Length && !(start <= x < d) ==> mem[x] == old(mem[x])
  {
    d := Put(mem, start, PERCENT);
    d := Put(mem, d, mem[s - 1]);
    d := Put(mem, d, mem[s]);
  }

  /** The case of a second digit, once it is known to be one; `v` is the byte the two digits stand for. */
  method PutJoined(mem: array<Byte>, start: nat, s: nat, v: Byte, letter: bool, uri: bool, redirect: bool)
    returns (d: nat, stop: bool)
    requires start + 3 <= mem.Length && 1 <= s < mem.Length && (start + 2 <= s || s < start)
    modifies mem
    ensures start <= d <= mem.Length && stop == (letter && v == QUESTION && (uri || redirect))
    ensures mem[start..d] == if !stop && redirect && !(letter && uri) && !(PERCENT < v < 0x7F)
      then [PERCENT, old(mem[s - 1]), old(mem[s])] else [v]
    ensures forall x :: 0 <= x < mem.Length && !(start <= x < d) ==> mem[x] == old(mem[x])
  {
    stop := false;
    if letter && uri {
      d := Put(mem, start, v);
      stop := v == QUESTION;
    } else if redirect {
      if letter && v == QUESTION {
        d := Put(mem, start, v);
        stop := true;
      } else if PERCENT < v && v < 0x7F {
        d := Put(mem, start, v);
      } else {
        d := PutBack(mem, start, s);
      }
    } else {
      d := Put(mem, start, v);
    }
  }

  /** One turn of the loop: what the switch does with the byte at `s`. */
  method Turn(mem: array<Byte>, start: nat, s: nat, state: nat, first: Byte, uri: bool, redirect: bool, ghost st: State)
    returns (d: nat, state': nat, decoded: Byte, stop: bool)
    requires Fine(st) && state == Owed(st) && s < mem.Length && start + Owed(st) < mem.Length
    requires start + Owed(st) <= s || s < start
    requires st.SawDigit? ==> 1 <= s && first == HexValue(st.q) && mem[s - 1] == st.q
    modifies mem
    ensures var r := Read(st, old(mem[s]), uri, redirect);
      && start <= d <= mem.Length && mem[start..d] == r.out && stop == r.stop && state' == Owed(r.next)
      && (r.next.SawDigit? ==> r.next.q == old(mem[s]) && decoded == HexValue(old(mem[s])) && d == start)
    ensures forall x :: 0 <= x < mem.Length && !(start <= x < d) ==> mem[x] == old(mem[x])
  {
    var ch := mem[s];
    d, state', decoded, stop := start, 0, first, false;
    if state == 0 {
      if ch == QUESTION && (uri || redirect) {
        d := Put(mem, d, ch);
        stop := true;
      } else if ch == PERCENT {
        state' := 1;
      } else {
        d := Put(mem, d, ch);
      }
    } else if state == 1 {
      var c := ch | 0x20;
      if 0x30 <= ch && ch <= 0x39 {
        decoded, state' := ch - 0x30, 2;
      } else if 0x61 <= c && c <= 0x66 {
        decoded, state' := c - 0x61 + 10, 2;
      } else {
        d := Put(mem, d, ch);
      }
    } else {
      var c := ch | 0x20;
      if 0x30 <= ch && ch <= 0x39 {
        d, stop := PutJoined(mem, d, s, (decoded << 4) + (ch - 0x30), false, uri, redirect);
      } else if 0x61 <= c && c <= 0x66 {
        d, stop := PutJoined(mem, d, s, (decoded << 4) + (c - 0x61) + 10, true, uri, redirect);
      }
    }
  }

  /** One turn, seen from the whole text. */
  method Round(mem: array<Byte>, start: nat, s: nat, state: nat, first: Byte, uri: bool, redirect: bool,
      ghost before: seq<Byte>, ghost dst: nat, ghost src: nat, ghost size: nat, ghost st: State, ghost out: seq<Byte>)
    returns (d: nat, state': nat, decoded: Byte, stop: bool, ghost next: State, ghost more: seq<Byte>)
    requires src + size <= |before| && src <= s < src + size
    requires Halfway(mem[..], before, dst, src, size, start, s, st, out)
    requires Fine(st) && state == Owed(st) && (st.SawDigit? ==> first == HexValue(st.q))
    modifies mem
    ensures Halfway(mem[..], before, dst, src, size, d, s + 1, next, more)
    ensures Fine(next) && state' == Owed(next) && (next.SawDigit? ==> decoded == HexValue(next.q))
    ensures var r := Read(st, before[src..src + size][s - src], uri, redirect);
      next == r.next && stop == r.stop && more == out + r.out
  {
    hide IsHex, HexValue, Read, Halfway;
    ghost var m := mem[..];
    HalfwayRoom(m, before, dst, src, size, start, s, st, out);
    ghost var r := Read(st, m[s], uri, redirect);
    ReadBound(st, m[s], uri, redirect);
    d, state', decoded, stop := Turn(mem, start, s, state, first, uri, redirect, st);
    next, more := r.next, out + r.out;
    HalfwayNext(m, mem[..], before, dst, src, size, start, d, s, st, next, out, r.out);
  }

  /** ngx_unescape_uri over one memory: `s` and `d` are where reading and writing begin. The destination may
      lie anywhere clear of the source, or start at or before it, as it does when a text is decoded in place;
      the output is the same. */
  method UnescapeUri(mem: array<Byte>, dst: nat, src: nat, size: nat, uri: bool, redirect: bool)
    returns (d: nat, s: nat)
    requires src + size <= mem.Length && dst + size <= mem.Length
    requires dst <= src || src + size <= dst
    modifies mem
    ensures s == src + Consumed(old(mem[src..src + size]), Usual, uri, redirect)
    ensures dst <= d <= dst + size && mem[dst..d] == Unescaped(old(mem[src..src + size]), Usual, uri, redirect)
    ensures forall x :: 0 <= x < mem.Length && !(dst <= x < d) ==> mem[x] == old(mem[x])
  {
    hide IsHex, HexValue, Unescaped, Consumed, Read, Progress, Halfway;
    ghost var before, text, out, st := mem[..], mem[src..src + size], [], Usual;
    ProgressStart(text, uri, redirect);
    HalfwayStart(before, dst, src, size);
    var state, decoded, stop := 0, 0, false;
    d, s := dst, src;
    while s < src + size
      invariant src <= s <= src + size && Halfway(mem[..], before, dst, src, size, d, s, st, out)
      invariant Fine(st) && Progress(text, s - src, st, out, uri, redirect)
      invariant state == Owed(st) && (st.SawDigit? ==> decoded == HexValue(st.q))
    {
      ProgressNext(text, s - src, st, out, uri, redirect);
      d, state, decoded, stop, st, out :=
        Round(mem, d, s, state, decoded, uri, redirect, before, dst, src, size, st, out);
      s := s + 1;
      if stop {
        HalfwayOut(mem[..], before, dst, src, size, d, s, st, out);
        return;
      }
    }
    HalfwayOut(mem[..], before, dst, src, size, d, s, st, out);
    ProgressEnd(text, st, out, uri, redirect);
  }

  /** Part of the source has been read: the rest of it is still as it was, and so is all but the output. */
  ghost predicate Halfway(m: seq<Byte>, before: seq<Byte>, dst: nat, src: nat, size: nat, d: nat, s: nat, st: State,
      out: seq<Byte>) {
    && |m| == |before| && src + size <= |m| && dst + size <= |m| && (dst <= src || src + size <= dst)
    && src <= s <= src + size && dst <= d && d + Owed(st) <= dst + (s - src)
    && (st.SawDigit? ==> src + 2 <= s && m[s - 1] == st.q)
    && (forall x :: s <= x < src + size ==> m[x] == before[x])
    && (forall x :: 0 <= x < |m| && !(dst <= x < d) ==> m[x] == before[x])
    && m[dst..d] == out
  }

  lemma HalfwayStart(before: seq<Byte>, dst: nat, src: nat, size: nat)
    requires src + size <= |before| && dst + size <= |before| && (dst <= src || src + size <= dst)
    ensures Halfway(before, before, dst, src, size, dst, src, Usual, [])
  {
  }

  /** The writer stays behind the reader, or clear of the source. */
  lemma HalfwayRoom(m: seq<Byte>, before: seq<Byte>, dst: nat, src: nat, size: nat, d: nat, s: nat, st: State,
      out: seq<Byte>)
    requires Halfway(m, before, dst, src, size, d, s, st, out) && s < src + size
    ensures d + Owed(st) < |m| && (d + Owed(st) <= s || s < d) && s < |m| && m[s] == before[src..src + size][s - src]
    ensures st.SawDigit? ==> 1 <= s && m[s - 1] == st.q
  {
  }

  lemma {:induction false} HalfwayNext(m: seq<Byte>, m': seq<Byte>, before: seq<Byte>, dst: nat, src: nat, size: nat,
      d: nat, d': nat, s: nat, st: State, next: State, out: seq<Byte>, more: seq<Byte>)
    requires Halfway(m, before, dst, src, size, d, s, st, out) && s < src + size
    requires |m'| == |m| && d <= d' <= |m| && m'[d..d'] == more && |more| + Owed(next) <= Owed(st) + 1
    requires forall x :: 0 <= x < |m| && !(d <= x < d') ==> m'[x] == m[x]
    requires next.SawDigit? ==> next.q == m[s] && d' == d
    ensures Halfway(m', before, dst, src, size, d', s + 1, next, out + more)
  {
    assert m'[dst..d'] == m'[dst..d] + m'[d..d'];
    assert m'[dst..d] == m[dst..d];
  }

  lemma HalfwayOut(m: seq<Byte>, before: seq<Byte>, dst: nat, src: nat, size: nat, d: nat, s: nat, st: State,
      out: seq<Byte>)
    requires Halfway(m, before, dst, src, size, d, s, st, out)
    ensures dst <= d <= dst + size <= |m| && m[dst..d] == out
    ensures forall x :: 0 <= x < |m| && !(dst <= x < d) ==> m[x] == before[x]
  {
  }

  /** The first `k` bytes of the text have been read and `out` has been put out. */
  ghost predicate Progress(text: seq<Byte>, k: nat, st: State, out: seq<Byte>, uri: bool, redirect: bool) {
    && Fine(st) && k <= |text|
    && Unescaped(text, Usual, uri, redirect) == out + Unescaped(text[k..], st, uri, redirect)
    && Consumed(text, Usual, uri, redirect) == k + Consumed(text[k..], st, uri, redirect)
  }

  lemma ProgressStart(text: seq<Byte>, uri: bool, redirect: bool)
    ensures Progress(text, 0, Usual, [], uri, redirect)
  {
    assert text[0..] == text;
  }

  lemma {:induction false} ProgressNext(text: seq<Byte>, k: nat, st: State, out: seq<Byte>, uri: bool, redirect: bool)
    requires Progress(text, k, st, out, uri, redirect) && k < |text|
    ensures var r := Read(st, text[k], uri, redirect);
      if r.stop then
        Unescaped(text, Usual, uri, redirect) == out + r.out && Consumed(text, Usual, uri, redirect) == k + 1
      else Progress(text, k + 1, r.next, out + r.out, uri, redirect)
  {
    hide Read;
    assert text[k..][1..] == text[k + 1..];
  }

  lemma ProgressEnd(text: seq<Byte>, st: State, out: seq<Byte>, uri: bool, redirect: bool)
    requires Progress(text, |text|, st, out, uri, redirect)
    ensures Unescaped(text, Usual, uri, redirect) == out && Consumed(text, Usual, uri, redirect) == |text|
  {
  }
}

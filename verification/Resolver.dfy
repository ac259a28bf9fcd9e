/** From request-target to file system path (src/static_files.c): percent-decoding, joining under the root, and the
    containment test, each against a specification over lists of segments. */
module Resolver {
  import opened Bytes

  const PATH_MAX := 4096

  datatype Code = Ok | Illegal | TooLong

  // A resolution step's answer; the text is empty unless the code is Ok.
  datatype Resolved = Resolved(code: Code, text: Bytes)

  // ---- Percent-decoding (section 2.1 of RFC 3986) ---------------------------------------------------------------

  function HexDigit(c: Byte): int {
    if '0' <= c <= '9' then c as int - '0' as int
    else if 'a' <= c <= 'f' then c as int - 'a' as int + 10
    else if 'A' <= c <= 'F' then c as int - 'A' as int + 10
    else -1
  }

  predicate EndsPath(c: Byte) { c == '?' || c == '#' }

  // The path portion of a target: everything before the first '?' or '#'.
  function PathPart(target: Bytes): Bytes {
    if target == [] || EndsPath(target[0]) then [] else [target[0]] + PathPart(target[1..])
  }

  predicate IsEscape(s: Bytes) {
    |s| >= 3 && s[0] == '%' && HexDigit(s[1]) >= 0 && HexDigit(s[2]) >= 0 && HexDigit(s[1]) * 16 + HexDigit(s[2]) != 0
  }

  function EscapeValue(s: Bytes): Byte
    requires IsEscape(s)
  { (HexDigit(s[1]) * 16 + HexDigit(s[2])) as char }

  // The bytes before the first malformed escape, and whether there was none.
  function Decode(s: Bytes): (Bytes, bool) {
    if s == [] then ([], true)
    else if s[0] != '%' then
      var (rest, ok) := Decode(s[1..]); ([s[0]] + rest, ok)
    else if IsEscape(s) then
      var (rest, ok) := Decode(s[3..]); ([EscapeValue(s)] + rest, ok)
    else ([], false)
  }

  // What the decoder answers with a buffer of `size` bytes, NUL included.
  function Decoded(target: Bytes, size: nat): Resolved {
    var (text, ok) := Decode(PathPart(target));
    if |text| >= size then Resolved(TooLong, []) else if !ok then Resolved(Illegal, []) else Resolved(Ok, text)
  }

  // The client's side: a hexadecimal digit in either case, and a byte escaped, high digit first.
  function HexChar(n: nat, upper: bool): Byte
    requires n < 16
  { if n < 10 then ('0' as int + n) as char else ((if upper then 'A' as int else 'a' as int) + n - 10) as char }

  function Escape(b: Byte, upper: bool): Bytes { ['%', HexChar(b as int / 16, upper), HexChar(b as int % 16, upper)] }

  // A text that begins with an escape of this byte; either digit may be in either case, and NUL has no escape.
  predicate BeginsWithEscape(e: Bytes, b: Byte) {
    |e| >= 3 && e[0] == '%' && b as int != 0 &&
    (e[1] == HexChar(b as int / 16, true) || e[1] == HexChar(b as int / 16, false)) &&
    (e[2] == HexChar(b as int % 16, true) || e[2] == HexChar(b as int % 16, false))
  }

  // `e` spells `s`: every byte stands for itself, unless it is one of % ? #, or is escaped.
  predicate Spells(e: Bytes, s: Bytes)
    decreases s
  {
    if s == [] then e == []
    else
      (e != [] && e[0] == s[0] && e[0] != '%' && e[0] != '?' && e[0] != '#' && Spells(e[1..], s[1..])) ||
      (BeginsWithEscape(e, s[0]) && Spells(e[3..], s[1..]))
  }

  lemma EscapesReadBack(e: Bytes, b: Byte)
    ensures IsEscape(e) && EscapeValue(e) == b <==> BeginsWithEscape(e, b)
  {
    var hi, lo := b as int / 16, b as int % 16;
    assert b as int == hi * 16 + lo && 0 <= hi < 16 && 0 <= lo < 16;
    if |e| >= 3 {
      HexDigitIs(e[1], hi);
      HexDigitIs(e[2], lo);
    }
  }

  lemma HexDigitIs(c: Byte, n: nat)
    requires n < 16
    ensures HexDigit(c) == n <==> c == HexChar(n, true) || c == HexChar(n, false)
    ensures HexDigit(c) < 16
  {}

  // Decoding is the inverse of every such spelling, and accepts nothing else.
  lemma {:induction false} DecodeInvertsSpelling(e: Bytes, s: Bytes)
    requires forall i :: 0 <= i < |e| ==> !EndsPath(e[i])
    ensures Decode(e) == (s, true) <==> Spells(e, s)
    decreases |e|
  {
    if e == [] {
    } else if e[0] != '%' {
      if s != [] {
        DecodeInvertsSpelling(e[1..], s[1..]);
        assert [e[0]] + s[1..] == s <==> e[0] == s[0];
      }
    } else {
      if s != [] { EscapesReadBack(e, s[0]); }
      if IsEscape(e) && s != [] {
        DecodeInvertsSpelling(e[3..], s[1..]);
        assert [EscapeValue(e)] + s[1..] == s <==> EscapeValue(e) == s[0];
      }
    }
  }

  lemma {:induction false} PathPartOfSpelling(e: Bytes, query: Bytes)
    requires forall i :: 0 <= i < |e| ==> !EndsPath(e[i])
    requires query == [] || EndsPath(query[0])
    ensures PathPart(e + query) == e
    decreases e
  {
    if e == [] {
      assert e + query == query;
    } else {
      assert (e + query)[1..] == e[1..] + query;
      PathPartOfSpelling(e[1..], query);
    }
  }

  lemma {:induction false} SpellingEndsNowhere(e: Bytes, s: Bytes)
    requires Spells(e, s)
    ensures forall i :: 0 <= i < |e| ==> !EndsPath(e[i])
    decreases s
  {
    if s != [] {
      if e[0] != '%' {
        SpellingEndsNowhere(e[1..], s[1..]);
        assert e == [e[0]] + e[1..];
      } else {
        SpellingEndsNowhere(e[3..], s[1..]);
        assert e == [e[0], e[1], e[2]] + e[3..];
      }
    }
  }

  function EscapeAll(s: Bytes, upper: bool): Bytes {
    if s == [] then [] else Escape(s[0], upper) + EscapeAll(s[1..], upper)
  }

  // Escaping every byte of a text spells it.
  lemma {:induction false} EscapedSpells(s: Bytes, upper: bool)
    requires NUL !in s
    ensures Spells(EscapeAll(s, upper), s)
  {
    if s != [] {
      EscapedSpells(s[1..], upper);
      var e := EscapeAll(s, upper);
      assert e[..3] == Escape(s[0], upper) && e[3..] == EscapeAll(s[1..], upper);
      assert e[0] == '%' && e[1] == Escape(s[0], upper)[1] && e[2] == Escape(s[0], upper)[2];
      assert BeginsWithEscape(e, s[0]);
    }
  }

  // Any spelling of a text, with or without a query behind it, comes back as that text.
  lemma SpellingRoundTrip(e: Bytes, s: Bytes, query: Bytes, size: nat)
    requires Spells(e, s) && |s| < size
    requires query == [] || query[0] == '?' || query[0] == '#'
    ensures Decoded(e + query, size) == Resolved(Ok, s)
  {
    SpellingEndsNowhere(e, s);
    PathPartOfSpelling(e, query);
    DecodeInvertsSpelling(e, s);
  }

  lemma {:induction false} DecodeShrinks(s: Bytes)
    ensures |Decode(s).0| <= |s|
    ensures NUL !in s ==> NUL !in Decode(s).0
    decreases |s|
  {
    if s != [] {
      if s[0] != '%' {
        DecodeShrinks(s[1..]);
        assert NUL !in s ==> NUL !in s[1..];
      } else if IsEscape(s) {
        DecodeShrinks(s[3..]);
        assert NUL !in s ==> NUL !in s[3..];
      }
    }
  }

  lemma {:induction false} PathPartShrinks(s: Bytes)
    ensures PathPart(s) <= s
  {
    if s != [] && !EndsPath(s[0]) { PathPartShrinks(s[1..]); }
  }

  // ---- The decoder's loop ------------------------------------------------------------------------------------------

  // What remains to be said about target[i..] once `w` bytes are out.
  lemma DecodePlain(s: Bytes)
    requires s != [] && !EndsPath(s[0]) && s[0] != '%'
    ensures Decode(PathPart(s)) == ([s[0]] + Decode(PathPart(s[1..])).0, Decode(PathPart(s[1..])).1)
  {
    assert PathPart(s)[1..] == PathPart(s[1..]);
  }

  lemma DecodeEscape(s: Bytes)
    requires s != [] && s[0] == '%'
    ensures Decode(PathPart(s)) ==
            if IsEscape(s) then ([EscapeValue(s)] + Decode(PathPart(s[3..])).0, Decode(PathPart(s[3..])).1)
            else ([], false)
  {
    var p := PathPart(s);
    if |s| >= 2 && !EndsPath(s[1]) {
      assert p[1..] == PathPart(s[1..]);
      if |s| >= 3 && !EndsPath(s[2]) {
        assert s[1..][1..] == s[2..] && s[2..][1..] == s[3..];
        assert p == [s[0], s[1], s[2]] + PathPart(s[3..]);
        assert p[3..] == PathPart(s[3..]);
      } else {
        assert |p| == 2 && !IsEscape(s);
      }
    } else {
      assert PathPart(s[1..]) == [] && p == [s[0]] + PathPart(s[1..]);
    }
  }

  method DecodePath(path: Bytes, out: array<Byte>) returns (r: Code, outLen: nat)
    requires out.Length > 0
    modifies out
    ensures r == Decoded(path, out.Length).code
    ensures r.Ok? ==> outLen < out.Length && out[..outLen] == Decoded(path, out.Length).text && out[outLen] == NUL
  {
    hide Decode;
    hide PathPart;
    ghost var (text, ok) := Decode(PathPart(path));
    outLen := 0;
    var i := 0;
    assert path[0..] == path && out[..0] + text == text;
    while i < |path| && !EndsPath(path[i])
      invariant i <= |path| && outLen < out.Length
      invariant Decode(PathPart(path)) == ToGo(out[..outLen], path[i..])
    {
      var c, next := ReadUnit(path, i, out[..outLen]);
      if next == 0 {
        return Illegal, outLen;
      }
      if outLen + 1 >= out.Length {
        return TooLong, outLen;
      }
      ghost var done := out[..outLen];
      out[outLen] := c;
      outLen := outLen + 1;
      assert out[..outLen] == done + [c];
      i := next;
    }
    DecodeNothing(path[i..]);
    assert out[..outLen] + [] == out[..outLen];
    out[outLen] := NUL;
    r := Ok;
  }

  // The decoding of a target whose rest is still to be read.
  function ToGo(done: Bytes, rest: Bytes): (Bytes, bool) {
    (done + Decode(PathPart(rest)).0, Decode(PathPart(rest)).1)
  }

  lemma DecodeNothing(s: Bytes)
    requires s == [] || EndsPath(s[0])
    ensures Decode(PathPart(s)) == ([], true)
  {}

  // One byte of output: a plain byte or an escape; next == 0 reports a malformed escape.
  method ReadUnit(path: Bytes, i: nat, ghost done: Bytes) returns (c: Byte, next: nat)
    requires i < |path| && !EndsPath(path[i])
    ensures next == 0 ==> ToGo(done, path[i..]) == (done, false)
    ensures next != 0 ==> i < next <= |path| && ToGo(done, path[i..]) == ToGo(done + [c], path[next..])
  {
    c, next := path[i], i + 1;
    var rest := path[i..];
    if c == '%' {
      DecodeEscape(rest);
      if i + 2 >= |path| {
        assert done + [] == done;
        return c, 0;
      }
      var hi, lo := HexDigit(path[i + 1]), HexDigit(path[i + 2]);
      if hi < 0 || lo < 0 || hi * 16 + lo == 0 {
        assert done + [] == done;
        return c, 0;
      }
      c := (hi * 16 + lo) as char;
      next := i + 3;
      assert rest[3..] == path[next..];
    } else {
      DecodePlain(rest);
      assert rest[1..] == path[next..];
    }
    assert done + ([c] + Decode(PathPart(path[next..])).0) == done + [c] + Decode(PathPart(path[next..])).0;
  }

  // ---- Joining under the root --------------------------------------------------------------------------------------

  const DOT: Bytes := "."
  const DOT_DOT: Bytes := ".."
  const SLASH: Bytes := "/"

  function Segments(path: Bytes): seq<Bytes> { Split(path, '/') }

  predicate Names(seg: Bytes) { seg != [] && seg != DOT }

  // The segments that name something.
  function Kept(segs: seq<Bytes>): seq<Bytes> {
    if segs == [] then []
    else (if Names(segs[0]) then [segs[0]] else []) + Kept(segs[1..])
  }

  function Render(segs: seq<Bytes>): Bytes {
    if segs == [] then [] else SLASH + segs[0] + Render(segs[1..])
  }

  // The segments in front of the first "..".
  function Front(segs: seq<Bytes>): seq<Bytes> {
    if segs == [] || segs[0] == DOT_DOT then [] else [segs[0]] + Front(segs[1..])
  }

  predicate IsAbsolute(path: Bytes) { path != [] && path[0] == '/' }

  function Base(root: Bytes): Bytes { if root == SLASH then [] else root }

  // What joining answers: the root, then every naming segment; a ".." is illegal unless the text overflows before it.
  function Joined(root: Bytes, decoded: Bytes, size: nat): Resolved {
    var segs := Segments(decoded);
    if !IsAbsolute(decoded) then Resolved(Illegal, [])
    else if |Base(root)| + |Render(Kept(Front(segs)))| >= size then Resolved(TooLong, [])
    else if DOT_DOT in segs then Resolved(Illegal, [])
    else
      var text := Base(root) + Render(Kept(segs));
      Resolved(Ok, if text == [] then SLASH else text)
  }

  // One left-to-right walk over the segments, as the loop does it.
  function Walk(done: Bytes, segs: seq<Bytes>, size: nat): Resolved
    decreases segs
  {
    if segs == [] then Resolved(Ok, done)
    else if !Names(segs[0]) then Walk(done, segs[1..], size)
    else if segs[0] == DOT_DOT then Resolved(Illegal, [])
    else if |done| + 1 + |segs[0]| >= size then Resolved(TooLong, [])
    else Walk(done + SLASH + segs[0], segs[1..], size)
  }

  lemma RenderKept(segs: seq<Bytes>)
    requires segs != []
    ensures Render(Kept(segs)) == (if Names(segs[0]) then SLASH + segs[0] else []) + Render(Kept(segs[1..]))
  {
    if Names(segs[0]) {
      assert Kept(segs)[1..] == Kept(segs[1..]);
    } else {
      assert Kept(segs) == Kept(segs[1..]);
    }
  }

  lemma RenderFront(segs: seq<Bytes>)
    requires segs != [] && segs[0] != DOT_DOT
    ensures Render(Kept(Front(segs))) ==
            (if Names(segs[0]) then SLASH + segs[0] else []) + Render(Kept(Front(segs[1..])))
  {
    RenderKept(Front(segs));
    assert Front(segs)[1..] == Front(segs[1..]);
  }

  lemma {:induction false} WalkIsJoin(done: Bytes, segs: seq<Bytes>, size: nat)
    requires |done| < size
    ensures Walk(done, segs, size) ==
            if |done| + |Render(Kept(Front(segs)))| >= size then Resolved(TooLong, [])
            else if DOT_DOT in segs then Resolved(Illegal, [])
            else Resolved(Ok, done + Render(Kept(segs)))
    decreases segs
  {
    if segs == [] {
      assert done + [] == done;
    } else if segs[0] == DOT_DOT {
      FrontEmpty(segs);
    } else {
      WalkOneSegment(done, segs, size);
    }
  }

  lemma WalkOneSegment(done: Bytes, segs: seq<Bytes>, size: nat)
    requires |done| < size && segs != [] && segs[0] != DOT_DOT
    ensures Walk(done, segs, size) ==
            if |done| + |Render(Kept(Front(segs)))| >= size then Resolved(TooLong, [])
            else if DOT_DOT in segs then Resolved(Illegal, [])
            else Resolved(Ok, done + Render(Kept(segs)))
    decreases segs, 0
  {
    hide Kept;
    hide Render;
    hide Front;
    var rest := segs[1..];
    assert DOT_DOT in segs <==> DOT_DOT in rest;
    RenderKept(segs);
    RenderFront(segs);
    if !Names(segs[0]) {
      WalkIsJoin(done, rest, size);
      EmptyPiece(Render(Kept(rest)));
    } else if |done| + 1 + |segs[0]| < size {
      WalkIsJoin(done + SLASH + segs[0], rest, size);
      Regroup(done, SLASH, segs[0], Render(Kept(rest)));
    }
  }

  lemma EmptyPiece(s: Bytes)
    ensures [] + s == s
  {}

  lemma Regroup(a: Bytes, b: Bytes, c: Bytes, d: Bytes)
    ensures a + b + c + d == a + (b + c + d)
  {}

  lemma FrontEmpty(segs: seq<Bytes>)
    requires segs != [] && segs[0] == DOT_DOT
    ensures Render(Kept(Front(segs))) == []
  {}

  lemma WalkSeparator(done: Bytes, rest: Bytes, size: nat)
    requires rest != [] && rest[0] == '/'
    ensures Walk(done, Segments(rest), size) == Walk(done, Segments(rest[1..]), size)
  {
    assert Segments(rest)[1..] == Segments(rest[1..]);
  }

  lemma WalkSegment(done: Bytes, rest: Bytes, n: nat, size: nat)
    requires n <= |rest| && '/' !in rest[..n] && (n < |rest| ==> rest[n] == '/')
    ensures Walk(done, Segments(rest), size) ==
            if !Names(rest[..n]) then Walk(done, Segments(rest[n..]), size)
            else if rest[..n] == DOT_DOT then Resolved(Illegal, [])
            else if |done| + 1 + n >= size then Resolved(TooLong, [])
            else Walk(done + SLASH + rest[..n], Segments(rest[n..]), size)
  {
    FirstPiece(rest, n, '/');
    var next := if !Names(rest[..n]) then done else done + SLASH + rest[..n];
    if n < |rest| {
      WalkSeparator(next, rest[n..], size);
      assert rest[n..][1..] == rest[n + 1..];
      assert Segments(rest)[1..] == Segments(rest[n + 1..]);
    } else {
      assert Segments(rest[n..]) == [[]];
      assert Segments(rest)[1..] == [] && Segments(rest[n..])[1..] == [];
    }
  }

  // Appends the decoded path to the root one segment at a time, in the caller's buffer.
  method JoinUnderRoot(root: Bytes, decoded: Bytes, out: array<Byte>) returns (r: Code, outLen: nat)
    requires out.Length >= 2
    modifies out
    ensures r == Joined(root, decoded, out.Length).code
    ensures r.Ok? ==>
              outLen < out.Length && out[..outLen] == Joined(root, decoded, out.Length).text && out[outLen] == NUL
  {
    outLen := 0;
    if |decoded| == 0 || decoded[0] != '/' {
      return Illegal, 0;
    }
    var base := Base(root);
    if |base| >= out.Length {
      return TooLong, 0;
    }
    WalkIsJoin(base, Segments(decoded), out.Length);
    r, outLen := AppendSegments(base, decoded, out);
    if r.Ok? {
      if outLen == 0 {
        out[outLen] := '/';
        outLen := 1;
      }
      out[outLen] := NUL;
    }
  }

  method AppendSegments(base: Bytes, decoded: Bytes, out: array<Byte>) returns (r: Code, outLen: nat)
    requires |base| < out.Length
    modifies out
    ensures r == Walk(base, Segments(decoded), out.Length).code
    ensures r.Ok? ==> outLen < out.Length && out[..outLen] == Walk(base, Segments(decoded), out.Length).text
  {
    hide Walk;
    hide Split;
    Copy(base, out, 0);
    outLen := |base|;
    var i := 0;
    ghost var goal := Walk(base, Segments(decoded), out.Length);
    assert decoded[0..] == decoded && out[..outLen] == base;
    while i < |decoded|
      invariant i <= |decoded| && outLen < out.Length
      invariant goal == Walk(out[..outLen], Segments(decoded[i..]), out.Length)
      decreases |decoded| - i
    {
      i := SkipSlashes(decoded, i, out[..outLen], out.Length);
      var start := i;
      i := EndOfSegment(decoded, start);
      var seg := decoded[start..i];
      WalkSegment(out[..outLen], decoded[start..], i - start, out.Length);
      assert decoded[start..][..i - start] == seg && decoded[start..][i - start..] == decoded[i..];
      if |seg| == 0 {
        break;
      }
      if |seg| == 1 && seg[0] == '.' {
        continue;
      }
      if |seg| == 2 && seg[0] == '.' && seg[1] == '.' {
        return Illegal, outLen;
      }
      if outLen + 1 + |seg| >= out.Length {
        return TooLong, outLen;
      }
      ghost var done := out[..outLen];
      out[outLen] := '/';
      Copy(seg, out, outLen + 1);
      outLen := outLen + 1 + |seg|;
      assert out[..outLen] == done + SLASH + seg;
    }
    WalkEnd(out[..outLen], decoded[i..], out.Length);
    r := Ok;
  }

  lemma WalkEnd(done: Bytes, rest: Bytes, size: nat)
    requires rest == []
    ensures Walk(done, Segments(rest), size) == Resolved(Ok, done)
  {
    assert Segments(rest) == [[]] && Segments(rest)[1..] == [];
  }

  // memcpy(out + at, text, |text|)
  method Copy(text: Bytes, out: array<Byte>, at: nat)
    requires at + |text| <= out.Length
    modifies out
    ensures out[at..at + |text|] == text
    ensures forall i :: 0 <= i < out.Length && !(at <= i < at + |text|) ==> out[i] == old(out[i])
  {
    forall i | 0 <= i < |text| { out[at + i] := text[i]; }
  }

  method SkipSlashes(decoded: Bytes, from: nat, ghost done: Bytes, ghost size: nat) returns (i: nat)
    requires from <= |decoded|
    ensures from <= i <= |decoded| && (i < |decoded| ==> decoded[i] != '/')
    ensures Walk(done, Segments(decoded[from..]), size) == Walk(done, Segments(decoded[i..]), size)
  {
    i := from;
    while i < |decoded| && decoded[i] == '/'
      invariant from <= i <= |decoded|
      invariant Walk(done, Segments(decoded[from..]), size) == Walk(done, Segments(decoded[i..]), size)
    {
      WalkSeparator(done, decoded[i..], size);
      assert decoded[i..][1..] == decoded[i + 1..];
      i := i + 1;
    }
  }

  method EndOfSegment(decoded: Bytes, start: nat) returns (i: nat)
    requires start <= |decoded|
    ensures start <= i <= |decoded| && '/' !in decoded[start..i] && (i < |decoded| ==> decoded[i] == '/')
    ensures start < |decoded| && decoded[start] != '/' ==> i > start
  {
    i := start;
    while i < |decoded| && decoded[i] != '/'
      invariant start <= i <= |decoded| && '/' !in decoded[start..i]
    {
      i := i + 1;
    }
  }

  // ---- What joining guarantees ------------------------------------------------------------------------------------

  lemma {:induction false} SplitLength(s: Bytes, d: Byte)
    ensures |Render(Split(s, d))| == |s| + 1
  {
    if s != [] {
      SplitLength(s[1..], d);
      var rest := Split(s[1..], d);
      if s[0] == d {
        assert ([[]] + rest)[1..] == rest;
      } else {
        assert ([[s[0]] + rest[0]] + rest[1..])[1..] == rest[1..];
      }
    }
  }

  lemma {:induction false} KeptLength(segs: seq<Bytes>)
    ensures |Render(Kept(segs))| <= |Render(segs)| && |Render(Kept(Front(segs)))| <= |Render(segs)|
    decreases segs
  {
    if segs != [] {
      hide Kept;
      hide Front;
      KeptLength(segs[1..]);
      RenderKept(segs);
      if segs[0] != DOT_DOT { RenderFront(segs); } else { FrontEmpty(segs); }
    }
  }

  // An absolute path starts with an empty segment, so joining adds no more than the path's own length.
  lemma JoinFits(root: Bytes, decoded: Bytes, size: nat)
    requires |root| + |decoded| < size
    ensures !Joined(root, decoded, size).code.TooLong?
    ensures Joined(root, decoded, size).code.Illegal? <==> !IsAbsolute(decoded) || DOT_DOT in Segments(decoded)
  {
    if IsAbsolute(decoded) {
      var segs := Segments(decoded);
      SplitLength(decoded[1..], '/');
      assert segs[0] == [] && segs[1..] == Segments(decoded[1..]);
      KeptLength(segs[1..]);
      RenderFront(segs);
      assert |Render(Kept(Front(segs)))| <= |decoded|;
    }
  }

  // ---- The tree of canonical paths ---------------------------------------------------------------------------------

  predicate Clean(segs: seq<Bytes>) { forall i :: 0 <= i < |segs| ==> segs[i] != [] && '/' !in segs[i] }

  // The canonical absolute path of a list of segments, as realpath() spells it.
  function PathOf(segs: seq<Bytes>): Bytes { if segs == [] then SLASH else Render(segs) }

  // The string test: a prefix that ends on a segment boundary.
  predicate IsWithinRoot(root: Bytes, canonical: Bytes) {
    root <= canonical &&
    (if root == SLASH then |canonical| > 1 else |canonical| > |root| && canonical[|root|] == '/')
  }

  lemma {:induction false} RenderAppend(a: seq<Bytes>, b: seq<Bytes>)
    ensures Render(a + b) == Render(a) + Render(b)
    decreases a
  {
    if a == [] {
      assert a + b == b;
    } else {
      RenderAppend(a[1..], b);
      assert (a + b)[1..] == a[1..] + b;
    }
  }

  // A rendered list that goes on with a separator inside another rendered list is a proper prefix of that list.
  lemma {:induction false} RenderPrefix(a: seq<Bytes>, b: seq<Bytes>)
    requires Clean(a) && Clean(b) && Render(a) + SLASH <= Render(b)
    ensures a < b
    decreases a
  {
    assert b != [];
    if a != [] {
      var x := Render(a[1..]) + SLASH;
      var y := Render(b[1..]);
      assert x[0] == '/';
      assert Render(a) + SLASH == SLASH + (a[0] + [x[0]] + x[1..]);
      assert Render(b) == SLASH + (b[0] + y);
      StripPrefix(SLASH, a[0] + ['/'] + x[1..], b[0] + y);
      SeparatorIsOutside(a[0], x[1..], b[0], y);
      if b[1..] != [] {
        assert b[0] + y == b[0] + ['/'] + y[1..];
        CutUnique(a[0], x[1..], b[0], y[1..], '/');
        assert x == ['/'] + x[1..] && y == ['/'] + y[1..];
        RenderPrefix(a[1..], b[1..]);
        assert a == [a[0]] + a[1..] && b == [b[0]] + b[1..];
      }
    }
  }

  lemma SeparatorIsOutside(a: Bytes, x: Bytes, b: Bytes, y: Bytes)
    requires a + ['/'] + x <= b + y && '/' !in b
    ensures y != []
  {
    assert (a + ['/'] + x)[|a|] == '/' == (b + y)[|a|];
    assert forall i :: 0 <= i < |b| ==> (b + y)[i] == b[i];
    assert |b| <= |a|;
  }

  lemma StripPrefix(p: Bytes, x: Bytes, y: Bytes)
    requires p + x <= p + y
    ensures x <= y
  {
    assert x == (p + x)[|p|..] && y == (p + y)[|p|..];
  }

  // The test is exactly the relation "strictly below" on the tree of segments.
  lemma WithinRootIsBelow(rs: seq<Bytes>, ps: seq<Bytes>)
    requires Clean(rs) && Clean(ps)
    ensures IsWithinRoot(PathOf(rs), PathOf(ps)) <==> rs < ps
  {
    var root, path := PathOf(rs), PathOf(ps);
    assert rs != [] ==> |Render(rs)| >= 1 + |rs[0]|;
    if rs < ps {
      var q := ps[|rs|..];
      assert ps == rs + q;
      RenderAppend(rs, q);
    }
    if IsWithinRoot(root, path) {
      if rs != [] {
        assert path == root + [path[|root|]] + path[|root| + 1..];
        RenderPrefix(rs, ps);
      }
    }
  }

  lemma {:induction false} PiecesAreClean(s: Bytes, d: Byte)
    ensures forall i :: 0 <= i < |Split(s, d)| ==> d !in Split(s, d)[i]
  {
    if s != [] { PiecesAreClean(s[1..], d); }
  }

  lemma {:induction false} KeptIsClean(segs: seq<Bytes>)
    requires forall i :: 0 <= i < |segs| ==> '/' !in segs[i]
    ensures Clean(Kept(segs)) && (DOT_DOT !in segs ==> DOT_DOT !in Kept(segs)) && DOT !in Kept(segs)
    decreases segs
  {
    if segs != [] { KeptIsClean(segs[1..]); }
  }

  lemma {:induction false} KeptAppend(a: seq<Bytes>, b: seq<Bytes>)
    ensures Kept(a + b) == Kept(a) + Kept(b)
    decreases a
  {
    if a == [] {
      assert a + b == b;
    } else {
      hide Names;
      KeptAppend(a[1..], b);
      assert (a + b)[1..] == a[1..] + b;
      var one := if Names(a[0]) then [a[0]] else [];
      assert one + (Kept(a[1..]) + Kept(b)) == one + Kept(a[1..]) + Kept(b);
    }
  }

  // Empty segments and "." name nothing, wherever they stand; everything else is kept, in order.
  lemma KeptInside(a: seq<Bytes>, seg: Bytes, b: seq<Bytes>)
    ensures Kept(a + [seg] + b) == Kept(a) + (if seg == [] || seg == ['.'] then [] else [seg]) + Kept(b)
  {
    KeptAppend(a + [seg], b);
    KeptAppend(a, [seg]);
    assert Kept([seg]) == (if seg == [] || seg == ['.'] then [] else [seg]) + Kept([]);
  }

  // A successful join names the root's own place or a place strictly below it, and never climbs.
  lemma JoinStaysInside(rs: seq<Bytes>, decoded: Bytes, size: nat)
    requires Clean(rs) && Joined(PathOf(rs), decoded, size).code.Ok?
    ensures var kept := Kept(Segments(decoded));
            IsAbsolute(decoded) && Clean(kept) && DOT_DOT !in kept && DOT !in kept &&
            Joined(PathOf(rs), decoded, size).text == PathOf(rs + kept) &&
            (IsWithinRoot(PathOf(rs), PathOf(rs + kept)) <==> kept != [])
  {
    var kept := Kept(Segments(decoded));
    PiecesAreClean(decoded, '/');
    KeptIsClean(Segments(decoded));
    RenderAppend(rs, kept);
    WithinRootIsBelow(rs, rs + kept);
    if rs != [] { assert |Render(rs)| >= 1 + |rs[0]|; }
    assert Base(PathOf(rs)) == Render(rs);
  }
}

/** What the text of a request says about the connection behind it (sections 6.1 and 6.3 of RFC 7230): the last `close`
    or `keep-alive` in its Connection headers decides, and the version where there is neither. */
module Persistence {
  import opened Bytes
  import opened Negotiation
  import opened ParserSpec
  import opened Grammar
  import opened Responses
  import opened Reference

  // ---- What a reader sees ------------------------------------------------------------------------------------------

  // The word at this place, and nothing but white space around it.
  predicate SaysAt(piece: Bytes, i: nat, j: nat, word: Bytes) {
    i <= j <= |piece| && AllBlank(piece[..i]) && AllBlank(piece[j..]) && AnyCase(piece[i..j], word)
  }

  ghost predicate Says(piece: Bytes, word: Bytes) { exists i: nat, j: nat :: SaysAt(piece, i, j, word) }

  function Commas(pieces: seq<Bytes>): Bytes
    requires pieces != []
  {
    if |pieces| == 1 then pieces[0] else pieces[0] + [','] + Commas(pieces[1..])
  }

  // The value is the list of these pieces.
  predicate Lists(value: Bytes, pieces: seq<Bytes>) {
    pieces != [] && (forall i :: 0 <= i < |pieces| ==> ',' !in pieces[i]) && Commas(pieces) == value
  }

  ghost predicate Neither(piece: Bytes) { !Says(piece, "close") && !Says(piece, "keep-alive") }

  ghost predicate LastAt(pieces: seq<Bytes>, k: nat, word: Bytes) {
    k < |pieces| && Says(pieces[k], word) && forall i :: k < i < |pieces| ==> Neither(pieces[i])
  }

  // The last piece of the value that is one of the two words is this one.
  ghost predicate LastWord(value: Bytes, word: Bytes) {
    exists pieces, k: nat :: Lists(value, pieces) && LastAt(pieces, k, word)
  }

  ghost predicate Silent(value: Bytes) {
    forall pieces :: Lists(value, pieces) ==> forall i :: 0 <= i < |pieces| ==> Neither(pieces[i])
  }

  predicate IsConnection(h: Header) { AnyCase(h.name, "connection") }

  ghost predicate DecidedAt(hs: seq<Header>, k: nat, word: Bytes) {
    k < |hs| && IsConnection(hs[k]) && LastWord(hs[k].value, word) &&
    forall i :: k < i < |hs| && IsConnection(hs[i]) ==> Silent(hs[i].value)
  }

  // The last of the two words in all Connection headers is this one.
  ghost predicate Asks(hs: seq<Header>, word: Bytes) { exists k: nat :: DecidedAt(hs, k, word) }

  // ---- Words -------------------------------------------------------------------------------------------------------

  lemma WordsIgnoreCase(s: Bytes)
    ensures SameIgnoringCase(s, CLOSE) == AnyCase(s, "close")
    ensures SameIgnoringCase(s, KEEP_ALIVE) == AnyCase(s, "keep-alive")
    ensures SameIgnoringCase(s, CONNECTION) == AnyCase(s, "connection")
  {
    WordIgnoresCase(s, CLOSE, "close");
    WordIgnoresCase(s, KEEP_ALIVE, "keep-alive");
    WordIgnoresCase(s, CONNECTION, "connection");
  }

  lemma {:induction false} TrimLeftTo(s: Bytes, i: nat)
    requires i < |s| && AllBlank(s[..i]) && !IsBlank(s[i])
    ensures TrimLeft(s) == s[i..]
  {
    if i > 0 {
      assert IsWsp(s[..i][0]);
      assert s[1..][..i - 1] == s[..i][1..];
      TrimLeftTo(s[1..], i - 1);
      assert s[1..][i - 1..] == s[i..];
    }
  }

  lemma {:induction false} TrimRightTo(s: Bytes, j: nat)
    requires 0 < j <= |s| && AllBlank(s[j..]) && !IsBlank(s[j - 1])
    ensures TrimRight(s) == s[..j]
    decreases |s|
  {
    var n := |s| - 1;
    if j <= n {
      assert IsWsp(s[j..][n - j]);
      assert s[..n][j..] == s[j..][..n - j];
      TrimRightTo(s[..n], j);
      assert s[..n][..j] == s[..j];
    } else {
      assert s[..j] == s;
    }
  }

  lemma TrimTo(s: Bytes, i: nat, j: nat)
    requires i < j <= |s| && AllBlank(s[..i]) && AllBlank(s[j..]) && !IsBlank(s[i]) && !IsBlank(s[j - 1])
    ensures Trim(s) == s[i..j]
  {
    TrimLeftTo(s, i);
    assert s[i..][j - i..] == s[j..];
    TrimRightTo(s[i..], j - i);
    assert s[i..][..j - i] == s[i..j];
  }

  lemma {:induction false} TrimLeftCuts(s: Bytes) returns (i: nat)
    ensures i <= |s| && AllBlank(s[..i]) && TrimLeft(s) == s[i..]
  {
    if s != [] && IsBlank(s[0]) {
      var n := TrimLeftCuts(s[1..]);
      i := n + 1;
      assert s[..i] == [s[0]] + s[1..][..n] && s[1..][n..] == s[i..];
    } else {
      i := 0;
    }
  }

  lemma {:induction false} TrimRightCuts(s: Bytes) returns (j: nat)
    ensures j <= |s| && AllBlank(s[j..]) && TrimRight(s) == s[..j]
  {
    var n := |s| - 1;
    if s != [] && IsBlank(s[n]) {
      j := TrimRightCuts(s[..n]);
      assert s[j..] == s[..n][j..] + [s[n]] && s[..n][..j] == s[..j];
    } else {
      j := |s|;
      assert s[..j] == s;
    }
  }

  // Trimming finds the word wherever it stands.
  lemma TrimmedSays(piece: Bytes, word: Bytes)
    requires word != [] && 0x61 <= word[0] as int <= 0x7A && 0x61 <= word[|word| - 1] as int <= 0x7A
    ensures Says(piece, word) <==> AnyCase(Trim(piece), word)
  {
    if Says(piece, word) {
      var i: nat, j: nat :| SaysAt(piece, i, j, word);
      var s := piece[i..j];
      assert !IsBlank(s[0]) && !IsBlank(s[|s| - 1]);
      TrimTo(piece, i, j);
    }
    if AnyCase(Trim(piece), word) {
      var i := TrimLeftCuts(piece);
      var n := TrimRightCuts(piece[i..]);
      assert piece[i..][n..] == piece[i + n..] && piece[i..][..n] == piece[i..i + n];
      assert SaysAt(piece, i, i + n, word);
    }
  }

  lemma RecognisedSays(piece: Bytes)
    ensures Recognise(Trim(piece)) == Close <==> Says(piece, "close")
    ensures Recognise(Trim(piece)) == KeepAlive <==> Says(piece, "keep-alive")
  {
    TrimmedSays(piece, "close");
    TrimmedSays(piece, "keep-alive");
    hide Says;
    WordsIgnoreCase(Trim(piece));
    var t := Trim(piece);
    hide Trim;
    assert AnyCase(t, "close") ==> |t| == 5;
    assert AnyCase(t, "keep-alive") ==> |t| == 10;
  }

  // ---- Lists -------------------------------------------------------------------------------------------------------

  lemma {:induction false} ListIsSplit(value: Bytes, pieces: seq<Bytes>)
    requires Lists(value, pieces)
    ensures Split(value, ',') == pieces
    decreases pieces
  {
    var first, rest := pieces[0], pieces[1..];
    assert value[..|first|] == first;
    FirstPiece(value, |first|, ',');
    if rest != [] {
      assert value[|first| + 1..] == Commas(rest);
      ListIsSplit(Commas(rest), rest);
    }
    assert pieces == [first] + rest;
  }

  lemma {:induction false} SplitLists(value: Bytes)
    ensures Lists(value, Split(value, ','))
  {
    if value != [] {
      SplitLists(value[1..]);
      var rest := Split(value[1..], ',');
      if value[0] == ',' {
        assert ([[]] + rest)[1..] == rest;
        assert [] + [','] + Commas(rest) == value;
      } else {
        var all := [[value[0]] + rest[0]] + rest[1..];
        assert all[1..] == rest[1..];
        assert Commas(all) == [value[0]] + Commas(rest);
      }
    }
  }

  lemma {:induction false} LastOfAt(d: Directive, options: seq<Directive>) returns (k: int)
    ensures -1 <= k < |options| && forall i :: k < i < |options| ==> options[i].Unspecified?
    ensures LastOf(d, options) == if k == -1 then d else options[k]
    ensures k >= 0 ==> !options[k].Unspecified?
    decreases options
  {
    k := |options| - 1;
    if options != [] && options[k].Unspecified? {
      k := LastOfAt(d, options[..k]);
    }
  }

  // What the scanner makes of one value is what a reader finds in it.
  lemma ValueDecides(value: Bytes)
    ensures LastOf(Unspecified, Options(value)) == Close <==> LastWord(value, "close")
    ensures LastOf(Unspecified, Options(value)) == KeepAlive <==> LastWord(value, "keep-alive")
    ensures LastOf(Unspecified, Options(value)) == Unspecified <==> Silent(value)
  {
    hide LastWord;
    hide Silent;
    hide Options;
    hide Split;
    hide Says;
    var pieces := Split(value, ',');
    OptionsSay(value);
    WordsOfSplit(value);
    var k := LastOfAt(Unspecified, Options(value));
    hide LastOf;
    if k >= 0 {
      assert LastAt(pieces, k, "close") || LastAt(pieces, k, "keep-alive");
    }
  }

  lemma WordsOfSplit(value: Bytes)
    ensures var pieces := Split(value, ',');
            (forall word :: LastWord(value, word) <==> exists k: nat :: LastAt(pieces, k, word)) &&
            (Silent(value) <==> forall i :: 0 <= i < |pieces| ==> Neither(pieces[i]))
  {
    hide Lists;
    hide LastAt;
    hide Neither;
    UniqueLists(value);
    assert Lists(value, Split(value, ','));
  }

  lemma OptionsSay(value: Bytes)
    ensures var pieces, options := Split(value, ','), Options(value);
            |options| == |pieces| && forall i :: 0 <= i < |pieces| ==>
              (options[i] == Close <==> Says(pieces[i], "close")) &&
              (options[i] == KeepAlive <==> Says(pieces[i], "keep-alive"))
  {
    hide Says;
    hide Recognise;
    hide Trim;
    var pieces := Split(value, ',');
    forall i | 0 <= i < |pieces|
      ensures (Options(value)[i] == Close <==> Says(pieces[i], "close")) &&
              (Options(value)[i] == KeepAlive <==> Says(pieces[i], "keep-alive"))
    {
      RecognisedSays(pieces[i]);
    }
  }

  lemma UniqueLists(value: Bytes)
    ensures forall pieces :: Lists(value, pieces) <==> pieces == Split(value, ',')
  {
    hide Lists;
    SplitLists(value);
    forall pieces | Lists(value, pieces) ensures pieces == Split(value, ',') { ListIsSplit(value, pieces); }
  }

  // ---- Headers -----------------------------------------------------------------------------------------------------

  lemma LastOfDefault(d: Directive, options: seq<Directive>)
    ensures LastOf(d, options) == if LastOf(Unspecified, options).Unspecified? then d else LastOf(Unspecified, options)
  {}

  lemma AsksStep(hs: seq<Header>, word: Bytes)
    requires hs != []
    ensures var n := |hs| - 1;
            var h := hs[n];
            (LastWord(h.value, word) ==> !Silent(h.value)) ==>
              (Asks(hs, word) <==> if IsConnection(h) && !Silent(h.value) then LastWord(h.value, word)
                                   else Asks(hs[..n], word))
  {
    hide LastWord;
    hide Silent;
    hide IsConnection;
    var n := |hs| - 1;
    var init := hs[..n];
    if Asks(hs, word) {
      var k: nat :| DecidedAt(hs, k, word);
      if k < n { assert DecidedAt(init, k, word); }
    }
    if Asks(init, word) {
      var k: nat :| DecidedAt(init, k, word);
      if !IsConnection(hs[n]) || Silent(hs[n].value) {
        assert forall i :: k < i < |hs| && IsConnection(hs[i]) && i < n ==> Silent(init[i].value);
        assert DecidedAt(hs, k, word);
      }
    }
    if IsConnection(hs[n]) && LastWord(hs[n].value, word) { assert DecidedAt(hs, n, word); }
  }

  // The directive that the machine arrives at is the word that the Connection headers end on.
  lemma {:induction false} HeadersDecide(hs: seq<Header>)
    ensures DirectiveOf(hs) == Close <==> Asks(hs, "close")
    ensures DirectiveOf(hs) == KeepAlive <==> Asks(hs, "keep-alive")
    decreases hs
  {
    hide LastWord;
    hide Silent;
    hide Options;
    hide LastOf;
    if hs != [] {
      var n := |hs| - 1;
      HeadersDecide(hs[..n]);
      ValueDecides(hs[n].value);
      AsksStep(hs, "close");
      AsksStep(hs, "keep-alive");
      WordsIgnoreCase(hs[n].name);
      hide Asks;
      hide SameIgnoringCase;
      var options := if IsConnection(hs[n]) then Options(hs[n].value) else [];
      LastOfAppend(Unspecified, AllOptions(hs[..n]), options);
      LastOfDefault(DirectiveOf(hs[..n]), options);
      LastOfNone(DirectiveOf(hs[..n]));
    } else {
      LastOfNone(Unspecified);
    }
  }

  lemma LastOfNone(d: Directive)
    ensures LastOf(d, []) == d
  {}

  // From the text of a request to the service behind it: a last `close` ends the connection with this answer, a last
  // `keep-alive` keeps it, and without either it is kept behind HTTP/1.1 to HTTP/1.9 and behind no other version.
  lemma ConnectionHeaderDecides(cfg: Config, r: Request, rest: Bytes)
    requires cfg.Valid() && WellFormed(r)
    ensures Asks(r.headers, "close") ==> Serve(cfg, Print(r) + rest) == [AnswerRequest(cfg, r)]
    ensures Asks(r.headers, "keep-alive") ==> Serve(cfg, Print(r) + rest) == [AnswerRequest(cfg, r)] + Serve(cfg, rest)
    ensures !Asks(r.headers, "close") && !Asks(r.headers, "keep-alive") ==>
              Serve(cfg, Print(r) + rest) ==
              [AnswerRequest(cfg, r)] + if r.major == 1 && r.minor >= 1 then Serve(cfg, rest) else []
  {
    hide Asks;
    hide Serve;
    hide Print;
    hide WellFormed;
    hide AnswerRequest;
    hide DirectiveOf;
    HeadersDecide(r.headers);
    ServedOnAsDocumented(cfg, r, rest);
  }
}

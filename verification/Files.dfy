/** The document root: looking a target up, opening the file, and who owns the descriptor (src/static_files.c). */
module Files {
  import opened Bytes
  import opened Resolver
  import Grammar

  // st_size is a signed 64-bit count.
  function MaxFileSize(): nat { 0x7FFF_FFFF_FFFF_FFFF }

  type Content = s: Bytes | |s| <= MaxFileSize() witness []

  // What the kernel says about one path: open() fails, or a descriptor whose /proc link, fstat() and type are these.
  datatype Node = Missing | Present(linkOk: bool, canonical: Bytes, statOk: bool, regular: bool, content: Content)

  // The file system does not change while requests are served, except that a file being sent may shrink (see Kernel).
  type FileSystem = Bytes -> Node

  datatype Lookup = NotFound | InvalidPath | Found(content: Content, contentType: Bytes)

  // ---- Content types -----------------------------------------------------------------------------------------------

  function AfterLast(s: Bytes, d: Byte): Bytes {
    if d !in s then s else if s[0] == d && d !in s[1..] then s[1..] else AfterLast(s[1..], d)
  }

  // From the last dot of a file name on, or nothing when there is no dot.
  function Extension(name: Bytes): Bytes {
    if '.' !in name then [] else ['.'] + AfterLast(name, '.')
  }

  // Short, on one line, and without blanks around it.
  predicate PlainValue(t: Bytes) {
    0 < |t| <= 30 && '\r' !in t && !IsBlank(t[0]) && !IsBlank(t[|t| - 1])
  }

  function TypeOfText(ext: Bytes): (t: Bytes)
    ensures PlainValue(t)
  {
    if SameIgnoringCase(ext, ".html") || SameIgnoringCase(ext, ".htm") then "text/html; charset=utf-8"
    else if SameIgnoringCase(ext, ".txt") then "text/plain; charset=utf-8"
    else if SameIgnoringCase(ext, ".css") then "text/css; charset=utf-8"
    else TypeOfCode(ext)
  }

  function TypeOfCode(ext: Bytes): (t: Bytes)
    ensures PlainValue(t)
  {
    if SameIgnoringCase(ext, ".js") then "text/javascript; charset=utf-8"
    else if SameIgnoringCase(ext, ".json") then "application/json"
    else if SameIgnoringCase(ext, ".svg") then "image/svg+xml"
    else TypeOfImage(ext)
  }

  function TypeOfImage(ext: Bytes): (t: Bytes)
    ensures PlainValue(t)
  {
    if SameIgnoringCase(ext, ".png") then "image/png"
    else if SameIgnoringCase(ext, ".jpg") || SameIgnoringCase(ext, ".jpeg") then "image/jpeg"
    else if SameIgnoringCase(ext, ".gif") then "image/gif"
    else if SameIgnoringCase(ext, ".ico") then "image/vnd.microsoft.icon"
    else "application/octet-stream"
  }

  function ContentTypeFor(fsPath: Bytes): (t: Bytes)
    ensures PlainValue(t)
  { TypeOfText(Extension(AfterLast(fsPath, '/'))) }

  lemma {:induction false} AfterLastOf(a: Bytes, d: Byte, b: Bytes)
    requires d !in b
    ensures AfterLast(a + [d] + b, d) == b
    decreases a
  {
    var s := a + [d] + b;
    if a == [] {
      assert s[1..] == b;
    } else {
      AfterLastOf(a[1..], d, b);
      assert s[1..] == a[1..] + [d] + b && s[|a|] == d && s[1..][|a| - 1] == d;
    }
  }

  lemma SameTransfers(a: Bytes, b: Bytes)
    requires SameIgnoringCase(a, b)
    ensures forall c: Bytes :: SameIgnoringCase(a, c) == SameIgnoringCase(b, c)
  {}

  lemma SameImageType(a: Bytes, b: Bytes)
    requires SameIgnoringCase(a, b)
    ensures TypeOfImage(a) == TypeOfImage(b)
  {
    hide SameIgnoringCase;
    SameTransfers(a, b);
  }

  lemma SameCodeType(a: Bytes, b: Bytes)
    requires SameIgnoringCase(a, b)
    ensures TypeOfCode(a) == TypeOfCode(b)
  {
    hide SameIgnoringCase;
    hide TypeOfImage;
    SameTransfers(a, b);
    SameImageType(a, b);
  }

  lemma SameType(a: Bytes, b: Bytes)
    requires SameIgnoringCase(a, b)
    ensures TypeOfText(a) == TypeOfText(b)
  {
    hide SameIgnoringCase;
    hide TypeOfCode;
    SameTransfers(a, b);
    SameCodeType(a, b);
  }

  // Only what follows the last dot of the last segment counts, and its case does not.
  lemma TypeFollowsExtension(dir: Bytes, stem: Bytes, ext: Bytes, ext': Bytes)
    requires '/' !in stem && '/' !in ext && '.' !in ext && SameIgnoringCase(ext, ext')
    ensures ContentTypeFor(dir + ['/'] + stem + ['.'] + ext) == TypeOfText(['.'] + ext')
    ensures '.' !in stem ==> ContentTypeFor(dir + ['/'] + stem) == TypeOfText([])
  {
    var name := stem + ['.'] + ext;
    AfterLastOf(dir, '/', name);
    AfterLastOf(dir, '/', stem);
    AfterLastOf(stem, '.', ext);
    assert dir + ['/'] + name == dir + ['/'] + stem + ['.'] + ext;
    assert name[|stem|] == '.';
    assert SameIgnoringCase(['.'] + ext, ['.'] + ext');
    SameType(['.'] + ext, ['.'] + ext');
    hide TypeOfText;
  }

  // An extension is compared in any case, behind its dot.
  lemma ExtensionIs(ext: Bytes, dotted: Bytes, word: Bytes)
    requires dotted == ['.'] + word && forall i :: 0 <= i < |word| ==> 0x61 <= word[i] as int <= 0x7A
    ensures SameIgnoringCase(['.'] + ext, dotted) == AnyCase(ext, word)
  {
    WordIgnoresCase(ext, word, word);
    assert forall i :: 0 <= i < |word| ==> dotted[i + 1] == word[i];
    assert forall i :: 0 <= i < |ext| ==> (['.'] + ext)[i + 1] == ext[i];
  }

  // The letters behind the dot that have a type of their own.
  predicate IsText(ext: Bytes) {
    AnyCase(ext, "html") || AnyCase(ext, "htm") || AnyCase(ext, "txt") || AnyCase(ext, "css")
  }

  predicate IsCode(ext: Bytes) { AnyCase(ext, "js") || AnyCase(ext, "json") || AnyCase(ext, "svg") }

  predicate IsImage(ext: Bytes) {
    AnyCase(ext, "png") || AnyCase(ext, "jpg") || AnyCase(ext, "jpeg") || AnyCase(ext, "gif") || AnyCase(ext, "ico")
  }

  lemma ImageTypes(ext: Bytes)
    ensures var t := TypeOfImage(['.'] + ext);
            (AnyCase(ext, "png") ==> t == "image/png") &&
            (AnyCase(ext, "jpg") || AnyCase(ext, "jpeg") ==> t == "image/jpeg") &&
            (AnyCase(ext, "gif") ==> t == "image/gif") &&
            (AnyCase(ext, "ico") ==> t == "image/vnd.microsoft.icon") &&
            (!IsImage(ext) ==> t == "application/octet-stream")
  {
    ExtensionIs(ext, ".png", "png");
    ExtensionIs(ext, ".jpg", "jpg");
    ExtensionIs(ext, ".jpeg", "jpeg");
    ExtensionIs(ext, ".gif", "gif");
    ExtensionIs(ext, ".ico", "ico");
    hide SameIgnoringCase;
    var first := if ext == [] then 'A' else ext[0];
  }

  lemma CodeTypes(ext: Bytes)
    ensures var t := TypeOfCode(['.'] + ext);
            (AnyCase(ext, "js") ==> t == "text/javascript; charset=utf-8") &&
            (AnyCase(ext, "json") ==> t == "application/json") &&
            (AnyCase(ext, "svg") ==> t == "image/svg+xml") &&
            (!IsCode(ext) ==> t == TypeOfImage(['.'] + ext))
  {
    ExtensionIs(ext, ".js", "js");
    ExtensionIs(ext, ".json", "json");
    ExtensionIs(ext, ".svg", "svg");
    hide SameIgnoringCase;
    hide TypeOfImage;
  }

  lemma TextTypes(ext: Bytes)
    ensures var t := TypeOfText(['.'] + ext);
            (AnyCase(ext, "html") || AnyCase(ext, "htm") ==> t == "text/html; charset=utf-8") &&
            (AnyCase(ext, "txt") ==> t == "text/plain; charset=utf-8") &&
            (AnyCase(ext, "css") ==> t == "text/css; charset=utf-8") &&
            (!IsText(ext) ==> t == TypeOfCode(['.'] + ext))
  {
    ExtensionIs(ext, ".html", "html");
    ExtensionIs(ext, ".htm", "htm");
    ExtensionIs(ext, ".txt", "txt");
    ExtensionIs(ext, ".css", "css");
    hide SameIgnoringCase;
    hide TypeOfCode;
    var first := if ext == [] then 'A' else ext[0];
  }

  lemma GroupsAreDisjoint(ext: Bytes)
    ensures !(IsText(ext) && IsCode(ext)) && !(IsText(ext) && IsImage(ext)) && !(IsCode(ext) && IsImage(ext))
  {
    if |ext| >= 2 { var first, second := ext[0], ext[1]; }
  }

  // Which type a file is served with, by the letters behind the last dot of its name, in any case.
  lemma TypeByExtension(dir: Bytes, stem: Bytes, ext: Bytes)
    requires '/' !in stem && '/' !in ext && '.' !in ext
    ensures var t := ContentTypeFor(dir + ['/'] + stem + ['.'] + ext);
            (AnyCase(ext, "html") || AnyCase(ext, "htm") ==> t == "text/html; charset=utf-8") &&
            (AnyCase(ext, "txt") ==> t == "text/plain; charset=utf-8") &&
            (AnyCase(ext, "css") ==> t == "text/css; charset=utf-8") &&
            (AnyCase(ext, "js") ==> t == "text/javascript; charset=utf-8") &&
            (AnyCase(ext, "json") ==> t == "application/json") &&
            (AnyCase(ext, "svg") ==> t == "image/svg+xml") &&
            (AnyCase(ext, "png") ==> t == "image/png") &&
            (AnyCase(ext, "jpg") || AnyCase(ext, "jpeg") ==> t == "image/jpeg") &&
            (AnyCase(ext, "gif") ==> t == "image/gif") &&
            (AnyCase(ext, "ico") ==> t == "image/vnd.microsoft.icon") &&
            (!IsText(ext) && !IsCode(ext) && !IsImage(ext) ==> t == "application/octet-stream")
    ensures '.' !in stem ==> ContentTypeFor(dir + ['/'] + stem) == "application/octet-stream"
  {
    hide AnyCase;
    hide ContentTypeFor;
    hide TypeOfText;
    hide TypeOfCode;
    hide TypeOfImage;
    TypeFollowsExtension(dir, stem, ext, ext);
    TextTypes(ext);
    CodeTypes(ext);
    ImageTypes(ext);
    GroupsAreDisjoint(ext);
    NoExtension();
  }

  lemma NoExtension()
    ensures TypeOfText([]) == "application/octet-stream"
  {}

  // ---- Looking a target up -----------------------------------------------------------------------------------------

  // The open file is the one that was asked for, under the root, and can be streamed.
  predicate Servable(root: Bytes, node: Node) {
    node.Present? && node.linkOk && |node.canonical| < PATH_MAX - 1 && IsWithinRoot(root, node.canonical) &&
    node.statOk && node.regular
  }

  function LookUp(root: Bytes, fs: FileSystem, target: Bytes): (l: Lookup)
    ensures l.Found? ==> PlainValue(l.contentType)
  {
    var d := Decoded(target, PATH_MAX);
    var j := Joined(root, d.text, PATH_MAX);
    if root == [] then NotFound
    else if d.code.Illegal? then InvalidPath
    else if d.code.TooLong? then NotFound
    else if j.code.Illegal? then InvalidPath
    else if j.code.TooLong? || d.text[|d.text| - 1] == '/' then NotFound
    else
      var node := fs(j.text);
      if Servable(root, node) then Found(node.content, ContentTypeFor(j.text)) else NotFound
  }

  // Whatever is served was reached by a path that extends the root's segments without ever climbing, and the file
  // behind it sits strictly below the root.
  lemma ServedIsUnderRoot(rs: seq<Bytes>, fs: FileSystem, target: Bytes)
    requires Clean(rs) && LookUp(PathOf(rs), fs, target).Found?
    ensures var text := Decoded(target, PATH_MAX).text;
            var kept := Kept(Segments(text));
            var node := fs(PathOf(rs + kept));
            node.Present? && Decoded(target, PATH_MAX).code.Ok? && IsAbsolute(text) && DOT_DOT !in Segments(text) &&
            text[|text| - 1] != '/' && Clean(kept) && node.linkOk && node.statOk && node.regular &&
            LookUp(PathOf(rs), fs, target) == Found(node.content, ContentTypeFor(PathOf(rs + kept))) &&
            (forall ps :: Clean(ps) && node.canonical == PathOf(ps) ==> rs < ps)
  {
    var text := Decoded(target, PATH_MAX).text;
    JoinStaysInside(rs, text, PATH_MAX);
    var node := fs(PathOf(rs + Kept(Segments(text))));
    forall ps | Clean(ps) && node.canonical == PathOf(ps) ensures rs < ps {
      WithinRootIsBelow(rs, ps);
    }
  }

  // Exactly which targets are served: those that decode to an absolute path without "..", ending in a name, under which
  // the kernel finds a regular file whose own canonical path lies strictly below the root; and what they are served.
  lemma FoundExactly(rs: seq<Bytes>, fs: FileSystem, target: Bytes, ps: seq<Bytes>)
    requires Clean(rs) && Clean(ps)
    requires var node := fs(PathOf(rs + Kept(Segments(Decode(PathPart(target)).0))));
             node.Present? ==> node.canonical == PathOf(ps)
    ensures var (text, ok) := Decode(PathPart(target));
            var path := PathOf(rs + Kept(Segments(text)));
            var lookup, node := LookUp(PathOf(rs), fs, target), fs(path);
            (lookup.Found? <==>
               ok && |text| < 4096 && text != [] && text[0] == '/' && text[|text| - 1] != '/' &&
               ['.', '.'] !in Segments(text) && |path| < 4096 &&
               node.Present? && node.linkOk && |node.canonical| < 4095 && rs < ps && node.statOk && node.regular) &&
            (lookup.Found? ==> lookup == Found(node.content, ContentTypeFor(path)))
  {
    hide LookUp;
    hide Decode;
    hide PathPart;
    hide Segments;
    hide Kept;
    hide Joined;
    hide IsWithinRoot;
    hide ContentTypeFor;
    var (text, ok) := Decode(PathPart(target));
    FoundByJoining(PathOf(rs), fs, target);
    WithinRootIsBelow(rs, ps);
    if IsAbsolute(text) && DOT_DOT !in Segments(text) {
      JoinsWhole(rs, text);
    } else {
      JoinRefuses(PathOf(rs), text);
    }
  }

  lemma FoundByJoining(root: Bytes, fs: FileSystem, target: Bytes)
    requires root != []
    ensures var (text, ok) := Decode(PathPart(target));
            var join := Joined(root, text, PATH_MAX);
            var lookup := LookUp(root, fs, target);
            (lookup.Found? <==> ok && |text| < PATH_MAX && join.code.Ok? && text != [] && text[|text| - 1] != '/' &&
                                Servable(root, fs(join.text))) &&
            (lookup.Found? ==> lookup == Found(fs(join.text).content, ContentTypeFor(join.text)))
  {
    hide Decode;
    hide PathPart;
    hide Segments;
    hide Kept;
    hide Front;
    hide Servable;
    hide ContentTypeFor;
  }

  lemma JoinRefuses(root: Bytes, text: Bytes)
    requires !IsAbsolute(text) || DOT_DOT in Segments(text)
    ensures !Joined(root, text, PATH_MAX).code.Ok?
  {}

  // A path that never climbs joins, if it fits, to the root's segments and its own.
  lemma JoinsWhole(rs: seq<Bytes>, text: Bytes)
    requires Clean(rs) && IsAbsolute(text) && DOT_DOT !in Segments(text)
    ensures var path := PathOf(rs + Kept(Segments(text)));
            Joined(PathOf(rs), text, PATH_MAX) ==
            if |path| < PATH_MAX then Resolved(Ok, path) else Resolved(TooLong, [])
  {
    hide Split;
    var segs := Segments(text);
    FrontIsAll(segs);
    RenderAppend(rs, Kept(segs));
    hide Kept;
    hide Front;
    if rs != [] { assert |Render(rs)| >= 1 + |rs[0]|; }
    assert Base(PathOf(rs)) == Render(rs);
  }

  lemma {:induction false} FrontIsAll(segs: seq<Bytes>)
    requires DOT_DOT !in segs
    ensures Front(segs) == segs
  {
    if segs != [] {
      FrontIsAll(segs[1..]);
      assert segs == [segs[0]] + segs[1..];
    }
  }

  lemma {:induction false} SegmentsOfRendered(segs: seq<Bytes>)
    requires Clean(segs) && segs != []
    ensures Render(segs) != [] && Render(segs)[0] == '/' && Split(Render(segs)[1..], '/') == segs
    ensures Render(segs)[|Render(segs)| - 1] != '/'
  {
    hide Split;
    var name, rest := segs[0], segs[1..];
    assert segs == [name] + rest;
    var text := Render(segs)[1..];
    assert text == name + Render(rest) && text[..|name|] == name;
    FirstPiece(text, |name|, '/');
    if rest == [] {
      assert text == name;
    } else {
      SegmentsOfRendered(rest);
      assert text[|name| + 1..] == Render(rest)[1..];
    }
  }

  lemma {:induction false} NamesAreKept(segs: seq<Bytes>)
    requires Clean(segs) && DOT !in segs && DOT_DOT !in segs
    ensures Kept(segs) == segs && Front(segs) == segs
  {
    if segs != [] {
      NamesAreKept(segs[1..]);
      assert segs == [segs[0]] + segs[1..];
    }
  }

  lemma PlainSegments(segs: seq<Bytes>)
    requires Clean(segs) && DOT !in segs && DOT_DOT !in segs
    ensures var all := [[]] + segs; DOT_DOT !in all && Kept(all) == segs && Kept(Front(all)) == segs
  {
    NamesAreKept(segs);
    var all := [[]] + segs;
    assert all[1..] == segs;
    assert Front(all) == [[]] + Front(segs) == all;
  }

  lemma RenderedIsPlain(segs: seq<Bytes>)
    requires Clean(segs) && segs != [] && DOT !in segs && DOT_DOT !in segs
    ensures var all := Segments(Render(segs)); DOT_DOT !in all && Kept(all) == segs && Kept(Front(all)) == segs
    ensures IsAbsolute(Render(segs)) && Render(segs)[|Render(segs)| - 1] != '/'
  {
    hide Split;
    hide Render;
    hide Kept;
    hide Front;
    hide Clean;
    var text := Render(segs);
    SegmentsOfRendered(segs);
    assert text[..0] == [];
    FirstPiece(text, 0, '/');
    PlainSegments(segs);
  }

  lemma JoinsBelow(rs: seq<Bytes>, segs: seq<Bytes>)
    requires Clean(rs) && Clean(segs) && segs != [] && DOT !in segs && DOT_DOT !in segs
    requires |PathOf(rs + segs)| < PATH_MAX
    ensures Joined(PathOf(rs), Render(segs), PATH_MAX) == Resolved(Ok, PathOf(rs + segs)) && |Render(segs)| < PATH_MAX
  {
    RenderedIsPlain(segs);
    RenderAppend(rs, segs);
    hide Split;
    hide Kept;
    hide Front;
    if rs != [] { assert |Render(rs)| >= 1 + |rs[0]|; }
    assert Base(PathOf(rs)) == Render(rs);
  }

  // Conversely, whatever lies below the root under ordinary names, and can be streamed, is served by every spelling of
  // its path, with or without a query or fragment.
  lemma EverySpellingIsServed(rs: seq<Bytes>, fs: FileSystem, segs: seq<Bytes>, e: Bytes, query: Bytes)
    requires Clean(rs) && Clean(segs) && segs != [] && ['.'] !in segs && ['.', '.'] !in segs
    requires Spells(e, Render(segs)) && |PathOf(rs + segs)| < PATH_MAX
    requires query == [] || query[0] == '?' || query[0] == '#'
    ensures var path := PathOf(rs + segs);
            LookUp(PathOf(rs), fs, e + query) ==
            if Servable(PathOf(rs), fs(path)) then Found(fs(path).content, ContentTypeFor(path)) else NotFound
  {
    hide Spells;
    hide Decoded;
    hide Joined;
    hide Segments;
    hide Servable;
    hide ContentTypeFor;
    JoinsBelow(rs, segs);
    RenderedIsPlain(segs);
    SpellingRoundTrip(e, Render(segs), query, PATH_MAX);
    assert PathOf(rs) != [];
  }

  // Whatever the grammar admits as a target is never too long to decode, and decodes without a NUL.
  lemma ParsedTargetDecodes(target: Bytes)
    requires Grammar.TargetOk(target)
    ensures var d := Decoded(target, PATH_MAX);
            !d.code.TooLong? && NUL !in d.text && |d.text| <= |target|
  {
    PathPartShrinks(target);
    assert forall c :: c in target ==> c as int > 0x20;
    assert NUL !in target;
    assert NUL !in PathPart(target);
    DecodeShrinks(PathPart(target));
  }

  // A parsed target is refused as invalid exactly when its escapes are malformed, or it is not absolute, or it climbs
  // before the text in front of the climb overflows; which it cannot unless root and target are very long together.
  lemma InvalidExactly(root: Bytes, fs: FileSystem, target: Bytes)
    requires root != [] && Grammar.TargetOk(target)
    ensures var (text, ok) := Decode(PathPart(target));
            var climbs := DOT_DOT in Segments(text);
            var fits := |Base(root)| + |Render(Kept(Front(Segments(text))))| < PATH_MAX;
            (LookUp(root, fs, target).InvalidPath? <==> !ok || !IsAbsolute(text) || (climbs && fits)) &&
            (ok && IsAbsolute(text) && |root| + |target| < PATH_MAX ==> fits)
  {
    hide Decode;
    hide PathPart;
    hide Split;
    ParsedTargetDecodes(target);
    var text := Decoded(target, PATH_MAX).text;
    if |root| + |target| < PATH_MAX {
      JoinFits(root, text, PATH_MAX);
    }
  }

  const CLIMB: Bytes := ['/', 'b', 'b', 'b', 'b', 'b', '/', '.', '.']

  lemma ClimbSegments()
    ensures Segments(CLIMB) == [[], CLIMB[1..6], DOT_DOT]
  {
    hide Split;
    FirstPiece(CLIMB, 0, '/');
    FirstPiece(CLIMB[1..], 5, '/');
    FirstPiece(DOT_DOT, 2, '/');
    assert CLIMB[1..][..5] == CLIMB[1..6] && CLIMB[1..][6..] == DOT_DOT && DOT_DOT[..2] == DOT_DOT;
  }

  lemma ClimbLength()
    ensures DOT_DOT in Segments(CLIMB) && |Render(Kept(Front(Segments(CLIMB))))| == 6
  {
    ClimbSegments();
    hide Split;
    var name := CLIMB[1..6];
    assert Front([[], name, DOT_DOT]) == [[], name];
    RenderKept([[], name]);
    RenderKept([name]);
    assert [[], name][1..] == [name] && Names(name);
  }

  lemma OverflowIsNotFound(root: Bytes, fs: FileSystem, target: Bytes)
    requires root != [] && |target| < PATH_MAX && Decode(PathPart(target)) == (target, true) && IsAbsolute(target)
    requires |Base(root)| + |Render(Kept(Front(Segments(target))))| >= PATH_MAX
    ensures LookUp(root, fs, target).NotFound?
  {}

  lemma {:induction false} ShortNamesLength(segs: seq<Bytes>)
    requires forall i :: 0 <= i < |segs| ==> |segs[i]| == 1
    ensures |Render(segs)| == 2 * |segs|
  {
    if segs != [] { ShortNamesLength(segs[1..]); }
  }

  // The overflow is real: under a root of many short names, this climbing target is reported as not found.
  lemma ClimbBehindOverflow(fs: FileSystem) returns (rs: seq<Bytes>)
    ensures Clean(rs) && (forall i :: 0 <= i < |rs| ==> |rs[i]| == 1) && |PathOf(rs)| < PATH_MAX
    ensures Grammar.TargetOk(CLIMB)
    ensures Decode(PathPart(CLIMB)) == (CLIMB, true) && IsAbsolute(CLIMB) && DOT_DOT in Segments(CLIMB)
    ensures LookUp(PathOf(rs), fs, CLIMB).NotFound?
  {
    hide Decode;
    hide PathPart;
    hide Segments;
    hide Render;
    hide Kept;
    hide Front;
    hide LookUp;
    rs := seq(2047, _ => ['a']);
    ShortNamesLength(rs);
    DecodesToItself(CLIMB);
    ClimbLength();
    OverflowIsNotFound(PathOf(rs), fs, CLIMB);
  }

  lemma {:induction false} DecodesToItself(s: Bytes)
    requires forall i :: 0 <= i < |s| ==> s[i] != '%' && !EndsPath(s[i])
    ensures Decode(PathPart(s)) == (s, true)
  {
    if s != [] {
      DecodesToItself(s[1..]);
      DecodePlain(s);
      assert [s[0]] + s[1..] == s;
    } else {
      DecodeNothing(s);
    }
  }

  // ---- Descriptors -------------------------------------------------------------------------------------------------

  // The kernel's table of open files.  Numbers are reused freely; closing a number that is not open cannot happen.
  class Descriptors {
    var open: map<int, Content>
    ghost var opens: nat
    ghost var closes: nat

    ghost predicate Valid()
      reads this
    {
      (forall fd :: fd in open ==> fd >= 0) && opens == closes + |open|
    }

    constructor ()
      ensures Valid() && open == map[] && opens == 0
    {
      open := map[];
      opens, closes := 0, 0;
    }

    method Open(content: Content) returns (fd: int)
      requires Valid()
      modifies this
      ensures Valid() && fd >= 0 && fd !in old(open) && open == old(open)[fd := content]
      ensures opens == old(opens) + 1 && closes == old(closes)
    {
      SomeNumberIsFree(open.Keys);
      fd :| fd >= 0 && fd !in open;
      open := open[fd := content];
      opens := opens + 1;
    }

    method Close(fd: int)
      requires Valid() && fd in open
      modifies this
      ensures Valid() && open == old(open) - {fd}
      ensures opens == old(opens) && closes == old(closes) + 1
    {
      assert open.Keys == (open - {fd}).Keys + {fd};
      open := open - {fd};
      closes := closes + 1;
    }
  }

  lemma {:induction false} SomeNumberIsFree(used: set<int>)
    ensures exists fd :: fd >= 0 && fd !in used
  {
    var bound := UpperBound(used);
    assert bound !in used;
  }

  lemma {:induction false} UpperBound(used: set<int>) returns (bound: int)
    ensures bound >= 0 && forall fd :: fd in used ==> fd < bound
    decreases used
  {
    if fd :| fd in used {
      var b := UpperBound(used - {fd});
      bound := if b <= fd then fd + 1 else b;
      assert forall x :: x in used ==> x == fd || x in used - {fd};
    } else {
      bound := 0;
    }
  }

  datatype StaticFile = StaticFile(fd: int, size: nat, contentType: Bytes)

  const NO_FILE := StaticFile(-1, 0, [])

  datatype OpenResult = FileOk | FileNotFound | FileInvalidPath

  // The caller owns the descriptor exactly when the result is FileOk; otherwise none is left open.
  method StaticFileOpen(root: Bytes, fs: FileSystem, fds: Descriptors, path: Bytes)
    returns (r: OpenResult, file: StaticFile)
    requires fds.Valid()
    modifies fds
    ensures fds.Valid()
    ensures match LookUp(root, fs, path)
            case NotFound => r.FileNotFound? && file == NO_FILE && fds.open == old(fds.open)
            case InvalidPath => r.FileInvalidPath? && file == NO_FILE && fds.open == old(fds.open)
            case Found(content, contentType) =>
              r.FileOk? && file.fd >= 0 && file.fd !in old(fds.open) && fds.open == old(fds.open)[file.fd := content] &&
              file.size == |content| && file.contentType == contentType
  {
    file := NO_FILE;
    if |root| == 0 {
      return FileNotFound, file;
    }
    var code, fsPath, slash := ResolveTarget(root, path);
    if code.Illegal? {
      return FileInvalidPath, file;
    }
    if code.TooLong? || slash {
      return FileNotFound, file;
    }
    var node := fs(fsPath);
    if node.Missing? {
      return FileNotFound, file;
    }
    var fd := fds.Open(node.content);
    if !(node.linkOk && |node.canonical| < PATH_MAX - 1 && IsWithinRoot(root, node.canonical)) {
      fds.Close(fd);
      return FileNotFound, file;
    }
    if !node.statOk || !node.regular {
      fds.Close(fd);
      return FileNotFound, file;
    }
    return FileOk, StaticFile(fd, |node.content|, ContentTypeFor(fsPath));
  }

  // The two string steps, each in its own buffer of PATH_MAX bytes.
  method ResolveTarget(root: Bytes, path: Bytes) returns (code: Code, fsPath: Bytes, slash: bool)
    ensures var d := Decoded(path, PATH_MAX);
            var j := Joined(root, d.text, PATH_MAX);
            if d.code.Ok?
            then code == j.code && (code.Ok? ==> fsPath == j.text && slash == (d.text[|d.text| - 1] == '/'))
            else code == d.code
  {
    fsPath, slash := [], false;
    var decoded := new Byte[PATH_MAX](_ => NUL);
    var decodedLen;
    code, decodedLen := DecodePath(path, decoded);
    if code.Ok? {
      var out := new Byte[PATH_MAX](_ => NUL);
      var outLen;
      code, outLen := JoinUnderRoot(root, decoded[..decodedLen], out);
      if code.Ok? {
        fsPath := out[..outLen];
        slash := decoded[decodedLen - 1] == '/';
      }
    }
  }

  // Idempotent: a file that is not open is left alone.
  method StaticFileClose(fds: Descriptors, file: StaticFile) returns (closed: StaticFile)
    requires fds.Valid() && (file.fd >= 0 ==> file.fd in fds.open)
    modifies fds
    ensures fds.Valid() && closed == file.(fd := if file.fd >= 0 then -1 else file.fd)
    ensures fds.open == if file.fd >= 0 then old(fds.open) - {file.fd} else old(fds.open)
  {
    closed := file;
    if file.fd >= 0 {
      fds.Close(file.fd);
      closed := file.(fd := -1);
    }
  }
}

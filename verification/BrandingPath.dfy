/** Which branding paths are served, and why a served path cannot leave its folder, after
    `apps/web/src/server/branding.ts`. Paths are POSIX paths. */
module BrandingPath {
  import opened Text

  const CONTENT_TYPES: set<string> := {
    ".svg", ".png", ".jpg", ".jpeg", ".gif", ".webp", ".avif", ".ico", ".woff", ".woff2"
  }

  predicate IsLetter(c: char) {
    'a' <= c <= 'z' || 'A' <= c <= 'Z'
  }

  /** The alternatives of the refusal pattern that look for a parent segment. */
  predicate RefusesParent(path: string) {
    path == ".." || "../" <= path || Contains(path, "/../") || EndsWith(path, "/..")
  }

  /** The refusal pattern, alternative by alternative. */
  predicate IsRefused(path: string) {
    || "/" <= path
    || (|path| >= 2 && IsLetter(path[0]) && path[1] == ':')
    || '\\' in path
    || '\0' in path
    || path == "."
    || RefusesParent(path)
    || Contains(path, "://")
  }

  function StripSlashes(path: string): string {
    if EndsWith(path, "/") then StripSlashes(path[..|path| - 1]) else path
  }

  /** The last segment, trailing slashes aside. */
  function BaseName(path: string): string {
    var segments := Split(StripSlashes(path), '/');
    segments[|segments| - 1]
  }

  /** `extname`: from the last dot of the base name, unless that starts it. */
  function ExtName(path: string): string {
    var base := BaseName(path);
    var dot := LastIndexOf(base, '.');
    if dot <= 0 || base == ".." then "" else base[dot..]
  }

  function SafeBrandingPath(splat: string, decode: string -> Option<string>): Option<string> {
    var requested := decode(splat);
    if requested.None? || requested.value == "" then None
    else if IsRefused(requested.value) then None
    else if Lower(ExtName(requested.value)) !in CONTENT_TYPES then None
    else requested
  }

  // ----------------------------------------------------------- path resolution

  /** The name of a file or folder. */
  predicate IsName(segment: string) {
    segment != "" && segment != "." && segment != ".." && '/' !in segment
  }

  /** Empty and dot segments stay where they are. */
  predicate GoesNowhere(segment: string) {
    segment == "" || segment == "."
  }

  function Enter(folder: seq<string>, segment: string): seq<string> {
    if GoesNowhere(segment) then folder
    else if segment == ".." then (if folder == [] then [] else folder[..|folder| - 1])
    else folder + [segment]
  }

  /** Walking a list of segments from a folder. */
  function Walk(folder: seq<string>, segments: seq<string>): seq<string>
    decreases |segments|
  {
    if segments == [] then folder else Walk(Enter(folder, segments[0]), segments[1..])
  }

  function PathText(folder: seq<string>): string {
    "/" + Join(folder, '/')
  }

  /** `resolve(root, path)`, the root given by its segments. */
  function Resolve(root: seq<string>, path: string): string {
    PathText(Walk(if "/" <= path then [] else root, Split(path, '/')))
  }

  /** The check after resolution. */
  predicate IsContained(root: seq<string>, resolved: string) {
    resolved == PathText(root) || PathText(root) + "/" <= resolved
  }

  // ---------------------------------------------- the pattern, segment by segment

  lemma JoinAround(front: seq<string>, piece: string, back: seq<string>)
    ensures Join(front + ([piece] + back), '/')
         == (if front == [] then "" else Join(front, '/') + "/") + Join([piece] + back, '/')
  {
    if front == [] {
      assert front + ([piece] + back) == [piece] + back;
    } else {
      JoinAppend(front, [piece] + back, '/');
    }
  }

  lemma JoinFirst(piece: string, back: seq<string>)
    ensures Join([piece] + back, '/') == piece + (if back == [] then "" else "/" + Join(back, '/'))
  {
    if back == [] {
      assert [piece] + back == [piece];
    } else {
      JoinAppend([piece], back, '/');
    }
  }

  lemma {:induction false} SplitAt(path: string, i: nat) returns (before: string, after: string)
    requires i < |Split(path, '/')|
    ensures i == 0 ==> before == ""
    ensures i > 0 ==> before != "" && before[|before| - 1] == '/'
    ensures after == "" || after[0] == '/'
    ensures i < |Split(path, '/')| - 1 <==> after != ""
    ensures path == before + Split(path, '/')[i] + after
  {
    var pieces := Split(path, '/');
    var front, back := pieces[..i], pieces[i + 1..];
    before := if front == [] then "" else Join(front, '/') + "/";
    after := if back == [] then "" else "/" + Join(back, '/');
    JoinSplit(path, '/');
    assert pieces == front + ([pieces[i]] + back);
    JoinAround(front, pieces[i], back);
    JoinFirst(pieces[i], back);
  }

  /** A character-level pattern for a segment-level fact. */
  lemma ParentSegments(path: string)
    ensures RefusesParent(path) <==> ".." in Split(path, '/')
  {
    var pieces := Split(path, '/');
    if ".." in pieces {
      var i :| 0 <= i < |pieces| && pieces[i] == "..";
      var before, after := SplitAt(path, i);
      ParentPattern(path, before, after);
    }
    if RefusesParent(path) {
      ParentPiece(path);
    }
  }

  lemma ParentPattern(path: string, before: string, after: string)
    requires path == before + ".." + after
    requires before != "" ==> before[|before| - 1] == '/'
    requires after != "" ==> after[0] == '/'
    ensures RefusesParent(path)
  {
    if before == "" {
      if after == "" {
        assert path == "..";
      } else {
        assert path[..3] == "../";
      }
    } else if after == "" {
      assert path[|path| - 3..] == "/..";
    } else {
      var i := |before| - 1;
      assert path[i..][..4] == "/../";
      ContainsAt(path, "/../", i);
    }
  }

  /** Between slashes, or between a slash and an end, stands a piece of the split. */
  lemma PieceInside(before: string, piece: string, after: string)
    requires '/' !in piece
    ensures piece in Split(piece + "/" + after, '/')
    ensures piece in Split(before + "/" + piece, '/')
    ensures piece in Split(before + "/" + (piece + "/" + after), '/')
  {
    SplitPlain(piece, '/');
    SplitAppend(piece, '/', after);
    SplitAppend(before, '/', piece);
    SplitAppend(before, '/', piece + "/" + after);
  }

  /** Text that starts with a pattern is the pattern and the rest. */
  lemma Peel(s: string, p: string)
    requires p <= s
    ensures s == p + s[|p|..]
  {
  }

  lemma ParentPiece(path: string)
    requires RefusesParent(path)
    ensures ".." in Split(path, '/')
  {
    if path == ".." {
      SplitPlain("..", '/');
    } else if "../" <= path {
      Peel(path, "../");
      assert path == ".." + "/" + path[3..];
      PieceInside("", "..", path[3..]);
    } else if Contains(path, "/../") {
      ParentInside(path);
    } else {
      var i := |path| - 3;
      assert path == path[..i] + "/" + "..";
      PieceInside(path[..i], "..", "");
    }
  }

  lemma CutAround(path: string, i: nat)
    requires i + 4 <= |path|
    ensures path == path[..i] + [path[i]] + (path[i + 1..i + 3] + [path[i + 3]] + path[i + 4..])
  {
  }

  lemma ParentInside(path: string)
    requires Contains(path, "/../")
    ensures ".." in Split(path, '/')
  {
    var i := IndexOf(path, "/../");
    var p := "/../";
    assert forall k | 0 <= k < 4 :: path[i + k] == path[i..][k] == p[k];
    assert path[i] == '/' && path[i + 3] == '/' && path[i + 1..i + 3] == [path[i + 1], path[i + 2]] == "..";
    CutAround(path, i);
    PieceInside(path[..i], "..", path[i + 4..]);
  }

  // -------------------------------------------------------------- containment

  /** Names among segments that go nowhere. */
  function Names(segments: seq<string>): seq<string> {
    if segments == [] then []
    else (if GoesNowhere(segments[0]) then [] else [segments[0]]) + Names(segments[1..])
  }

  lemma EnterGoesDown(folder: seq<string>, segment: string)
    requires segment != ".."
    ensures Enter(folder, segment) == folder + if GoesNowhere(segment) then [] else [segment]
  {
  }

  /** Without a parent segment, walking only ever goes down. */
  lemma {:induction false} WalkGoesDown(folder: seq<string>, segments: seq<string>)
    requires ".." !in segments
    ensures Walk(folder, segments) == folder + Names(segments)
    decreases |segments|
  {
    if segments == [] {
      assert folder + [] == folder;
    } else {
      var rest := segments[1..];
      var name := if GoesNowhere(segments[0]) then [] else [segments[0]];
      EnterGoesDown(folder, segments[0]);
      WalkGoesDown(folder + name, rest);
      assert folder + name + Names(rest) == folder + (name + Names(rest));
    }
  }

  lemma {:induction false} NamesHave(segments: seq<string>, name: string)
    requires name in segments && name != "" && name != "."
    ensures name in Names(segments)
  {
    if segments[0] != name {
      NamesHave(segments[1..], name);
    }
  }

  lemma {:induction false} BaseNameIsSegment(path: string)
    ensures BaseName(path) in Split(path, '/')
  {
    if EndsWith(path, "/") {
      var front := path[..|path| - 1];
      BaseNameIsSegment(front);
      assert path == front + "/" + "";
      SplitAppend(front, '/', "");
    }
  }

  /** An extension names a file: the base name is then a name. */
  lemma ExtNameHasName(path: string)
    requires ExtName(path) != ""
    ensures BaseName(path) in Names(Split(path, '/'))
  {
    BaseNameIsSegment(path);
    assert LastIndexOf(BaseName(path), '.') > 0;
    NamesHave(Split(path, '/'), BaseName(path));
  }

  lemma NoContentTypeForNothing()
    ensures Lower("") !in CONTENT_TYPES
  {
    assert Lower("") == "";
    assert forall t | t in CONTENT_TYPES :: |t| > 0;
  }

  /** Down from the root along some names is inside the root. */
  lemma BelowIsInside(root: seq<string>, names: seq<string>)
    requires root != [] && names != []
    ensures PathText(root) + "/" <= PathText(root + names)
  {
    JoinAppend(root, names, '/');
    assert PathText(root + names) == PathText(root) + "/" + Join(names, '/');
  }

  lemma ResolveGoesDown(root: seq<string>, path: string)
    requires !("/" <= path) && !RefusesParent(path)
    ensures Resolve(root, path) == PathText(root + Names(Split(path, '/')))
  {
    ParentSegments(path);
    WalkGoesDown(root, Split(path, '/'));
  }

  lemma AcceptedHasName(path: string)
    requires Lower(ExtName(path)) in CONTENT_TYPES
    ensures Names(Split(path, '/')) != []
  {
    NoContentTypeForNothing();
    assert ExtName(path) != "";
    ExtNameHasName(path);
  }

  /** Whatever root it is resolved against, an accepted path lands strictly inside, on the
      root's segments followed by its own names. */
  lemma AcceptedStaysInside(splat: string, decode: string -> Option<string>, root: seq<string>)
    requires SafeBrandingPath(splat, decode).Some? && root != []
    ensures var path := SafeBrandingPath(splat, decode).value;
            && Names(Split(path, '/')) != []
            && Resolve(root, path) == PathText(root + Names(Split(path, '/')))
            && PathText(root) + "/" <= Resolve(root, path)
            && IsContained(root, Resolve(root, path))
  {
    var path := SafeBrandingPath(splat, decode).value;
    ResolveGoesDown(root, path);
    AcceptedHasName(path);
    BelowIsInside(root, Names(Split(path, '/')));
  }

  /** The refusals of parents are what keeps a path inside: one step up already leaves. */
  lemma OneParentLeaves(root: seq<string>, name: string)
    requires root != [] && (forall s | s in root :: IsName(s)) && IsName(name) && name != root[|root| - 1]
    ensures RefusesParent("../" + name)
    ensures Resolve(root, "../" + name) == PathText(root[..|root| - 1] + [name])
    ensures !IsContained(root, Resolve(root, "../" + name))
  {
    var path := "../" + name;
    assert path[..3] == "../";
    assert path == ".." + "/" + name;
    SplitAppend("..", '/', name);
    SplitPlain("..", '/');
    SplitPlain(name, '/');
    var up := root[..|root| - 1];
    assert [".."] + [name] == ["..", name];
    assert Walk(root, ["..", name]) == Walk(up, [name]) == up + [name];
    SiblingIsOutside(up, root[|root| - 1], name);
    assert root == up + [root[|root| - 1]];
  }

  lemma SiblingIsOutside(up: seq<string>, inside: string, outside: string)
    requires IsName(inside) && IsName(outside) && inside != outside
    requires forall s | s in up :: IsName(s)
    ensures !IsContained(up + [inside], PathText(up + [outside]))
  {
    var a, b := PathText(up + [inside]), PathText(up + [outside]);
    PathSplit(up + [inside]);
    PathSplit(up + [outside]);
    assert ([""] + (up + [inside]))[|up| + 1] == inside && ([""] + (up + [outside]))[|up| + 1] == outside;
    if a + "/" <= b {
      DeeperSplitsLonger(a, b);
    }
  }

  lemma DeeperSplitsLonger(a: string, b: string)
    requires a + "/" <= b
    ensures |Split(b, '/')| > |Split(a, '/')|
  {
    var rest := b[|a| + 1..];
    assert b == a + ['/'] + rest;
    SplitAppend(a, '/', rest);
  }

  lemma PathSplit(folder: seq<string>)
    requires folder != [] && forall s | s in folder :: IsName(s)
    ensures Split(PathText(folder), '/') == [""] + folder
  {
    assert PathText(folder) == "" + "/" + Join(folder, '/');
    SplitAppend("", '/', Join(folder, '/'));
    SplitJoin(folder, '/');
  }

  // -------------------------------------------------------- what is accepted

  predicate AllSlashes(s: string) {
    forall i | 0 <= i < |s| :: s[i] == '/'
  }

  /** A folder, or nothing; a name of at least one character; one of the extensions, in either
      case; and perhaps slashes. */
  ghost predicate IsTypedAs(path: string, dir: string, stem: string, ext: string, slashes: string) {
    && path == dir + stem + ext + slashes
    && (dir != "" ==> dir[|dir| - 1] == '/')
    && stem != "" && '/' !in stem
    && Lower(ext) in CONTENT_TYPES && AllSlashes(slashes)
  }

  ghost predicate IsTyped(path: string) {
    exists dir, stem, ext, slashes :: IsTypedAs(path, dir, stem, ext, slashes)
  }

  lemma TypeShape(t: string)
    requires t in CONTENT_TYPES
    ensures |t| > 1 && t[0] == '.' && forall i | 0 < i < |t| :: t[i] != '.' && t[i] != '/'
  {
  }

  lemma ExtensionShape(ext: string)
    requires Lower(ext) in CONTENT_TYPES
    ensures |ext| > 1 && ext[0] == '.' && forall i | 0 < i < |ext| :: ext[i] != '.' && ext[i] != '/'
  {
    TypeShape(Lower(ext));
    assert Lower(ext)[0] == LowerChar(ext[0]);
    forall i | 0 < i < |ext| ensures ext[i] != '.' && ext[i] != '/' {
      assert Lower(ext)[i] == LowerChar(ext[i]);
    }
  }

  lemma {:induction false} SlashesGo(core: string, slashes: string)
    requires AllSlashes(slashes) && core != "" && core[|core| - 1] != '/'
    ensures StripSlashes(core + slashes) == core
    decreases |slashes|
  {
    if slashes == "" {
      assert core + slashes == core;
    } else {
      var s := core + slashes;
      assert s[..|s| - 1] == core + slashes[..|slashes| - 1];
      SlashesGo(core, slashes[..|slashes| - 1]);
    }
  }

  lemma {:induction false} SlashesLeft(path: string) returns (slashes: string)
    ensures AllSlashes(slashes) && path == StripSlashes(path) + slashes
  {
    if EndsWith(path, "/") {
      var fewer := SlashesLeft(path[..|path| - 1]);
      slashes := fewer + "/";
    } else {
      slashes := "";
    }
  }

  lemma LastPiece(dir: string, base: string)
    requires (dir != "" ==> dir[|dir| - 1] == '/') && '/' !in base
    ensures var pieces := Split(dir + base, '/'); pieces[|pieces| - 1] == base
  {
    SplitPlain(base, '/');
    if dir == "" {
      assert dir + base == base;
    } else {
      var front := dir[..|dir| - 1];
      assert dir + base == front + "/" + base;
      SplitAppend(front, '/', base);
    }
  }

  lemma {:induction false} LastPieceIs(core: string) returns (dir: string)
    ensures var pieces := Split(core, '/');
            core == dir + pieces[|pieces| - 1] && (dir != "" ==> dir[|dir| - 1] == '/')
            && '/' !in pieces[|pieces| - 1]
  {
    var pieces := Split(core, '/');
    var before, after := SplitAt(core, |pieces| - 1);
    SplitPieces(core, '/');
    assert pieces[|pieces| - 1] in pieces;
    dir := before;
    assert core == before + pieces[|pieces| - 1];
  }

  lemma DotIs(stem: string, ext: string)
    requires |ext| > 1 && ext[0] == '.' && forall i | 0 < i < |ext| :: ext[i] != '.' && ext[i] != '/'
    ensures LastIndexOf(stem + ext, '.') == |stem|
  {
    var s := stem + ext;
    assert s[|stem|] == '.';
    assert forall k | |stem| < k < |s| :: s[k] == ext[k - |stem|];
  }

  /** The extension of a path that ends so is what it ends in. */
  lemma TypedExtension(dir: string, stem: string, ext: string, slashes: string)
    requires IsTypedAs(dir + stem + ext + slashes, dir, stem, ext, slashes)
    ensures ExtName(dir + stem + ext + slashes) == ext
  {
    var base, core := stem + ext, dir + (stem + ext);
    ExtensionShape(ext);
    assert dir + stem + ext + slashes == core + slashes && core[|core| - 1] == ext[|ext| - 1];
    SlashesGo(core, slashes);
    assert '/' !in base;
    LastPiece(dir, base);
    DotIs(stem, ext);
    assert base[|stem|..] == ext && base[|base| - 1] != '.';
  }

  lemma TypedByExtension(path: string)
    requires Lower(ExtName(path)) in CONTENT_TYPES
    ensures IsTyped(path)
  {
    NoContentTypeForNothing();
    var base, ext := BaseName(path), ExtName(path);
    var dot := LastIndexOf(base, '.');
    var slashes := SlashesLeft(path);
    var dir := LastPieceIs(StripSlashes(path));
    var stem := base[..dot];
    assert base == stem + ext;
    assert dir + (stem + ext) + slashes == dir + stem + ext + slashes;
    assert IsTypedAs(path, dir, stem, ext, slashes);
  }

  /** The type test on the path, said about how the path ends. */
  lemma TypeIsHowItEnds(path: string)
    ensures Lower(ExtName(path)) in CONTENT_TYPES <==> IsTyped(path)
  {
    if IsTyped(path) {
      var dir, stem, ext, slashes :| IsTypedAs(path, dir, stem, ext, slashes);
      TypedExtension(dir, stem, ext, slashes);
    }
    if Lower(ExtName(path)) in CONTENT_TYPES {
      TypedByExtension(path);
    }
  }

  /** A relative POSIX path without a parent segment, a drive, a backslash, a zero or a scheme. */
  ghost predicate IsPlainPath(path: string) {
    && path != "" && path != "." && path[0] != '/' && ".." !in Split(path, '/')
    && !(|path| >= 2 && IsLetter(path[0]) && path[1] == ':')
    && '\\' !in path && '\0' !in path && !Contains(path, "://")
  }

  lemma FirstSlash(path: string)
    ensures "/" <= path <==> path != "" && path[0] == '/'
  {
  }

  lemma NotRefusedIffPlain(path: string)
    requires path != ""
    ensures !IsRefused(path) <==> IsPlainPath(path)
  {
    ParentSegments(path);
    FirstSlash(path);
  }

  /** What is served: exactly the plain paths that end in the name of an image or a font. */
  lemma AcceptedIffPlainAndTyped(splat: string, decode: string -> Option<string>, path: string)
    ensures SafeBrandingPath(splat, decode) == Some(path)
       <==> decode(splat) == Some(path) && IsPlainPath(path) && IsTyped(path)
  {
    if path != "" { NotRefusedIffPlain(path); }
    TypeIsHowItEnds(path);
  }

  const TYPES: seq<string> :=
    [".svg", ".png", ".jpg", ".jpeg", ".gif", ".webp", ".avif", ".ico", ".woff", ".woff2"]

  /** None of the characters that mean something between the names of a path. */
  ghost predicate IsOneName(text: string) {
    forall i | 0 <= i < |text| :: text[i] != '/' && text[i] != ':' && text[i] != '\\' && text[i] != '\0'
  }

  lemma NothingElseIsServed(ext: string)
    ensures ext in CONTENT_TYPES <==> ext in TYPES
  {
  }

  lemma TypeIsSmall(t: string)
    requires t in CONTENT_TYPES
    ensures Lower(t) == t && IsOneName(t)
  {
    assert forall i | 0 <= i < |t| :: t[i] == '.' || t[i] == '2' || 'a' <= t[i] <= 'z';
    assert forall i | 0 <= i < |t| :: LowerChar(t[i]) == t[i];
  }

  lemma OneNameIsPlain(path: string)
    requires IsOneName(path) && path != "" && path[0] != '.'
    ensures IsPlainPath(path)
  {
    SplitPlain(path, '/');
    SchemeHasColon(path);
  }

  lemma TypeInAnyCase(ext: string, t: string)
    requires t in TYPES && SameText(ext, t)
    ensures Lower(ext) in CONTENT_TYPES && IsOneName(ext)
  {
    NothingElseIsServed(t);
    TypeIsSmall(t);
    SameTextIs(ext, t);
    forall i | 0 <= i < |ext|
      ensures ext[i] != '/' && ext[i] != ':' && ext[i] != '\\' && ext[i] != '\0'
    {
      assert Lower(ext)[i] == LowerChar(ext[i]) == t[i];
    }
  }

  lemma NameIsTyped(name: string, ext: string)
    requires IsOneName(name) && name != "" && Lower(ext) in CONTENT_TYPES
    ensures IsTyped(name + ext)
  {
    assert "" + name + ext + "" == name + ext;
    assert IsTypedAs(name + ext, "", name, ext, "");
  }

  /** Every image and font of a simple name is served, whichever of the types it has and in
      whatever case its extension is written. */
  lemma EveryTypeIsServed(
      name: string, ext: string, t: string, decode: string -> Option<string>, splat: string)
    requires IsOneName(name) && name != "" && name[0] != '.'
    requires t in TYPES && SameText(ext, t) && decode(splat) == Some(name + ext)
    ensures SafeBrandingPath(splat, decode) == Some(name + ext)
  {
    TypeInAnyCase(ext, t);
    OneNameIsPlain(name + ext);
    NameIsTyped(name, ext);
    AcceptedIffPlainAndTyped(splat, decode, name + ext);
  }

  lemma SchemeHasColon(path: string)
    ensures Contains(path, "://") ==> ':' in path
  {
    var i := IndexOf(path, "://");
    if i >= 0 {
      assert path[i..][0] == ':' && path[i] == ':';
    }
  }
}

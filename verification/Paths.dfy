/**
 Paths in the virtual file system (filesystem/VirtualFileSystem.hpp): normalisation by a component
 stack, validation, and the choice of a mount point.
 */
module Paths {
  // ----- splitting and joining

  function IndexOfSlash(s: string, from: nat): (e: nat)
    requires from <= |s|
    ensures from <= e <= |s| && (e < |s| ==> s[e] == '/')
    ensures forall k | from <= k < e :: s[k] != '/'
    decreases |s| - from
  {
    if from == |s| || s[from] == '/' then from else IndexOfSlash(s, from + 1)
  }

  /** The items that getline yields with delimiter '/': nothing after a final delimiter. */
  function Items(s: string): seq<string> {
    if s == "" then []
    else
      var e := IndexOfSlash(s, 0);
      if e == |s| then [s] else [s[..e]] + Items(s[e + 1..])
  }

  function Join(cs: seq<string>): string {
    if cs == [] then ""
    else if |cs| == 1 then cs[0]
    else cs[0] + "/" + Join(cs[1..])
  }

  // ----- the component stack

  function Push(stack: seq<string>, item: string): seq<string> {
    if item == "" || item == "." then stack
    else if item == ".." then if stack == [] then stack else stack[..|stack| - 1]
    else stack + [item]
  }

  function PushAll(stack: seq<string>, items: seq<string>): seq<string>
    decreases |items|
  {
    if items == [] then stack else PushAll(Push(stack, items[0]), items[1..])
  }

  /** The components of a path that survive normalisation. */
  function Components(path: string): seq<string> {
    PushAll([], Items(path))
  }

  predicate IsAbsolute(path: string) {
    path != "" && path[0] == '/'
  }

  function Render(absolute: bool, stack: seq<string>): string {
    var r := (if absolute then "/" else "") + Join(stack);
    if r == "" then "/" else r
  }

  function Normalize(path: string): string {
    Render(IsAbsolute(path), Components(path))
  }

  // ----- what survives

  predicate IsName(c: string) {
    c != "" && c != "." && c != ".." && '/' !in c
  }

  predicate Names(cs: seq<string>) {
    forall i | 0 <= i < |cs| :: IsName(cs[i])
  }

  lemma {:induction false} ItemsHaveNoSlash(s: string)
    ensures forall i | 0 <= i < |Items(s)| :: '/' !in Items(s)[i]
  {
    if s == "" {
    } else {
      var e := IndexOfSlash(s, 0);
      if e < |s| { ItemsHaveNoSlash(s[e + 1..]); }
    }
  }

  lemma {:induction false} PushAllKeepsNames(stack: seq<string>, items: seq<string>)
    requires Names(stack) && forall i | 0 <= i < |items| :: '/' !in items[i]
    ensures Names(PushAll(stack, items))
    decreases |items|
  {
    if items == [] {
    } else {
      PushAllKeepsNames(Push(stack, items[0]), items[1..]);
    }
  }

  /** No surviving component is empty, ".", ".." or contains a slash. */
  lemma ComponentsAreNames(path: string)
    ensures Names(Components(path))
  {
    ItemsHaveNoSlash(path);
    PushAllKeepsNames([], Items(path));
  }

  lemma {:induction false} PushNames(stack: seq<string>, cs: seq<string>)
    requires Names(cs)
    ensures PushAll(stack, cs) == stack + cs
    decreases |cs|
  {
    if cs == [] {
      assert stack + cs == stack;
    } else {
      PushNames(stack + [cs[0]], cs[1..]);
      assert stack + [cs[0]] + cs[1..] == stack + cs;
    }
  }

  lemma FirstSlash(a: string, b: string)
    requires '/' !in a
    ensures IndexOfSlash(a + "/" + b, 0) == |a|
    ensures IndexOfSlash(a, 0) == |a|
  {
    var s := a + "/" + b;
    assert forall k | 0 <= k < |a| :: s[k] == a[k] && a[k] in a;
    assert s[|a|] == '/';
  }

  lemma ItemsCons(a: string, b: string)
    requires '/' !in a
    ensures Items(a + "/" + b) == [a] + Items(b)
  {
    FirstSlash(a, b);
    var s := a + "/" + b;
    assert s[..|a|] == a && s[|a| + 1..] == b;
  }

  lemma ItemsOfName(c: string)
    requires c != "" && '/' !in c
    ensures Items(c) == [c]
  {
  }

  lemma {:induction false} ItemsOfJoin(cs: seq<string>)
    requires Names(cs)
    ensures Items(Join(cs)) == cs
  {
    if |cs| == 1 {
      ItemsOfName(cs[0]);
      assert cs == [cs[0]];
    } else if |cs| > 1 {
      ItemsOfJoin(cs[1..]);
      ItemsCons(cs[0], Join(cs[1..]));
    }
  }

  lemma JoinedStart(cs: seq<string>)
    requires Names(cs) && cs != []
    ensures Join(cs) != "" && Join(cs)[0] == cs[0][0] != '/'
  {
  }

  lemma RenderedComponents(absolute: bool, cs: seq<string>)
    requires Names(cs)
    ensures Components(Render(absolute, cs)) == cs
  {
    var none: seq<string> := [];
    ItemsOfJoin(cs);
    PushNames(none, cs);
    assert none + cs == cs;
    ItemsCons("", Join(cs));
    assert "" + "/" + Join(cs) == "/" + Join(cs);
    assert ([""] + cs)[1..] == cs && Push(none, "") == none;
    if absolute || cs == [] {
      assert Render(absolute, cs) == "/" + Join(cs);
    } else {
      JoinedStart(cs);
      assert Render(absolute, cs) == Join(cs);
    }
  }

  lemma RenderedIsAbsolute(absolute: bool, cs: seq<string>)
    requires Names(cs)
    ensures Render(absolute, cs) != ""
    ensures IsAbsolute(Render(absolute, cs)) <==> absolute || cs == []
  {
    if cs != [] { JoinedStart(cs); }
  }

  /** Splitting a normalised path gives back exactly the surviving components. */
  lemma NormalizeKeepsComponents(path: string)
    ensures Components(Normalize(path)) == Components(path)
  {
    ComponentsAreNames(path);
    RenderedComponents(IsAbsolute(path), Components(path));
  }

  lemma NormalizeIsIdempotent(path: string)
    ensures Normalize(Normalize(path)) == Normalize(path)
  {
    NormalizeKeepsComponents(path);
    ComponentsAreNames(path);
    RenderedIsAbsolute(IsAbsolute(path), Components(path));
  }

  // ----- relative to a normalised directory

  lemma {:induction false} PushJoined(stack: seq<string>, p: string, q: string)
    ensures PushAll(stack, Items(p + "/" + q)) == PushAll(PushAll(stack, Items(p)), Items(q))
    decreases |p|
  {
    var e := IndexOfSlash(p, 0);
    if e == |p| {
      ItemsCons(p, q);
    } else {
      var a, b := p[..e], p[e + 1..];
      assert p == a + "/" + b;
      assert p + "/" + q == a + "/" + (b + "/" + q);
      ItemsCons(a, b);
      ItemsCons(a, b + "/" + q);
      PushJoined(Push(stack, a), b, q);
    }
  }

  // ----- what normalisation removes, and what it keeps

  lemma SplicedPath(p: string, mid: string, q: string)
    requires '/' !in mid
    ensures Components(p + "/" + mid + "/" + q) == PushAll(Push(Components(p), mid), Items(q))
  {
    assert p + "/" + mid + "/" + q == p + "/" + (mid + "/" + q);
    PushJoined([], p, mid + "/" + q);
    ItemsCons(mid, q);
  }

  lemma SameRoot(p: string, a: string, b: string)
    ensures IsAbsolute(p + "/" + a) <==> IsAbsolute(p + "/" + b)
  {
  }

  lemma PushName(stack: seq<string>, c: string)
    requires IsName(c)
    ensures PushAll(stack, Items(c)) == stack + [c] && Push(stack + [c], "..") == stack
  {
    ItemsOfName(c);
    assert PushAll(stack, [c]) == Push(stack, c);
  }

  lemma ParentPath(p: string, c: string, q: string)
    ensures p + "/" + c + "/../" + q == (p + "/" + c) + "/" + ".." + "/" + q
    ensures p + "/" + c + "/../" + q == p + "/" + (c + "/../" + q)
  {
  }

  /** ".." cancels the name before it, wherever the two stand in the path. */
  lemma ParentCancels(p: string, c: string, q: string)
    requires IsName(c)
    ensures Normalize(p + "/" + c + "/../" + q) == Normalize(p + "/" + q)
  {
    ParentPath(p, c, q);
    SplicedPath(p + "/" + c, "..", q);
    PushJoined([], p, c);
    PushName(Components(p), c);
    PushJoined([], p, q);
    SameRoot(p, c + "/../" + q, q);
  }

  /** With nothing left above it, ".." adds nothing; so there is no way up out of the root. */
  lemma ParentOfNothing(p: string, q: string)
    requires Components(p) == []
    ensures Components(p + "/../" + q) == Components(p + "/" + q)
  {
    assert p + "/../" + q == p + "/" + ".." + "/" + q;
    SplicedPath(p, "..", q);
    PushJoined([], p, q);
  }

  /** "." and doubled slashes are dropped, wherever they stand in the path. */
  lemma IdleItemsVanish(p: string, q: string)
    ensures Normalize(p + "/./" + q) == Normalize(p + "/" + q)
    ensures Normalize(p + "//" + q) == Normalize(p + "/" + q)
  {
    assert p + "/./" + q == p + "/" + "." + "/" + q == p + "/" + ("./" + q);
    assert p + "//" + q == p + "/" + "" + "/" + q == p + "/" + ("/" + q);
    SplicedPath(p, ".", q);
    SplicedPath(p, "", q);
    PushJoined([], p, q);
    SameRoot(p, "./" + q, q);
    SameRoot(p, "/" + q, q);
  }

  /** A path made of the names cs: "/a/b", or "a/b" if there is one at all. */
  predicate Spells(path: string, cs: seq<string>) {
    Names(cs) && (path == "/" + Join(cs) || (cs != [] && path == Join(cs)))
  }

  /** Normalisation leaves exactly those paths alone that are names joined by single slashes. */
  lemma NormalFormExactly(path: string)
    ensures Normalize(path) == path <==> exists cs :: Spells(path, cs)
  {
    if Normalize(path) == path {
      ComponentsAreNames(path);
      assert Spells(path, Components(path));
    }
    if cs :| Spells(path, cs) {
      var absolute := path == "/" + Join(cs);
      if !absolute { JoinedStart(cs); }
      assert Render(absolute, cs) == path;
      RenderedComponents(absolute, cs);
      RenderedIsAbsolute(absolute, cs);
    }
  }

  lemma RendersDiffer(cs: seq<string>)
    requires Names(cs)
    ensures Render(true, cs) == Render(false, cs) <==> cs == []
  {
  }

  /**
   Normalising p/q and normalising (normalised p)/q agree, for every absolute p and for nearly
   every other one. The exceptions are exactly the non-empty relative p whose components all
   cancel: "/" stands in for such a p, and turns p/q into an absolute path.
   */
  lemma NormalizeJoinLaw(p: string, q: string)
    ensures Normalize(p + "/" + q) == Normalize(Normalize(p) + "/" + q) <==>
            p == "" || IsAbsolute(p) || Components(p) != [] || Components(q) == []
  {
    var cs := PushAll(Components(p), Items(q));
    PushJoined([], p, q);
    PushJoined([], Normalize(p), q);
    NormalizeKeepsComponents(p);
    ComponentsAreNames(p);
    ItemsHaveNoSlash(q);
    PushAllKeepsNames(Components(p), Items(q));
    RenderedIsAbsolute(IsAbsolute(p), Components(p));
    RendersDiffer(cs);
  }

  /** For instance "." and any name. */
  lemma JoinLawException(name: string)
    requires IsName(name)
    ensures Normalize("." + "/" + name) == name
    ensures Normalize(Normalize(".") + "/" + name) == "/" + name
  {
    ItemsOfName(name);
    ItemsOfName(".");
    var none: seq<string> := [];
    assert Push(none, ".") == none && Push(none, name) == [name];
    assert Components(".") == none by { assert PushAll(none, ["."]) == none; }
    assert PushAll(none, [name]) == [name];
    PushJoined(none, ".", name);
    PushJoined(none, Normalize("."), name);
    NormalizeKeepsComponents(".");
    assert Render(false, none) == "/";
  }

  // ----- directory traversal

  predicate MatchesAt(s: string, t: string, i: nat) {
    i + |t| <= |s| && s[i..i + |t|] == t
  }

  predicate Contains(s: string, t: string) {
    exists i: nat | i <= |s| :: MatchesAt(s, t, i)
  }

  predicate EndsInDots(c: string) {
    |c| >= 2 && c[|c| - 2..] == ".."
  }

  /** Some component other than the last one ends in "..". */
  predicate DotsBeforeSlash(cs: seq<string>) {
    exists i | 0 <= i < |cs| - 1 :: EndsInDots(cs[i])
  }

  ghost predicate SlashDotsAt(s: string, i: nat) {
    i + 3 <= |s| && s[i] == '.' && s[i + 1] == '.' && s[i + 2] == '/'
  }

  ghost predicate HasSlashDots(s: string) {
    exists i: nat :: SlashDotsAt(s, i)
  }

  lemma MatchIsSlashDots(s: string, i: nat)
    ensures MatchesAt(s, "../", i) <==> SlashDotsAt(s, i)
  {
  }

  lemma ContainsSlashDots(s: string)
    ensures Contains(s, "../") <==> HasSlashDots(s)
  {
    if i: nat :| i <= |s| && MatchesAt(s, "../", i) { MatchIsSlashDots(s, i); }
    if i: nat :| SlashDotsAt(s, i) { MatchIsSlashDots(s, i); }
  }

  /** In c/rest the pattern sits either across the slash after c or inside rest. */
  lemma SlashDotsSplit(c: string, rest: string, i: nat)
    requires '/' !in c
    ensures SlashDotsAt(c + "/" + rest, i) <==>
            (EndsInDots(c) && i == |c| - 2) || (i > |c| && SlashDotsAt(rest, i - |c| - 1))
  {
  }

  lemma {:induction false} JoinedSlashDots(cs: seq<string>)
    requires Names(cs)
    ensures HasSlashDots(Join(cs)) <==> DotsBeforeSlash(cs)
  {
    if |cs| == 1 {
      assert forall k | 0 <= k < |cs[0]| :: cs[0][k] in cs[0];
    } else if |cs| > 1 {
      var rest := Join(cs[1..]);
      JoinedSlashDots(cs[1..]);
      assert Join(cs) == cs[0] + "/" + rest;
      if i: nat :| SlashDotsAt(Join(cs), i) {
        SlashDotsSplit(cs[0], rest, i);
        if i > |cs[0]| {
          var k: nat := i - |cs[0]| - 1;
          assert SlashDotsAt(rest, k) && HasSlashDots(rest);
          var j :| 0 <= j < |cs[1..]| - 1 && EndsInDots(cs[1..][j]);
          assert EndsInDots(cs[j + 1]);
        }
      }
      if j :| 0 <= j < |cs| - 1 && EndsInDots(cs[j]) {
        var i: nat;
        if j == 0 {
          i := |cs[0]| - 2;
        } else {
          assert EndsInDots(cs[1..][j - 1]);
          assert HasSlashDots(rest);
          i :| SlashDotsAt(rest, i);
          i := i + |cs[0]| + 1;
        }
        SlashDotsSplit(cs[0], rest, i);
        assert SlashDotsAt(Join(cs), i);
      }
    }
  }

  /**
   The traversal test on a normalised path fires exactly when a component other than the last
   ends in ".." (a name such as "a.."): no ".." component is left for it to find.
   */
  lemma TraversalTestFindsOnlyNames(path: string)
    ensures Contains(Normalize(path), "../") <==> DotsBeforeSlash(Components(path))
  {
    var cs := Components(path);
    var s := Normalize(path);
    ComponentsAreNames(path);
    ContainsSlashDots(s);
    JoinedSlashDots(cs);
    if IsAbsolute(path) {
      assert s == "" + "/" + Join(cs);
      if i: nat :| SlashDotsAt(s, i) {
        SlashDotsSplit("", Join(cs), i);
        var k: nat := i - 1;
        assert SlashDotsAt(Join(cs), k);
      }
      if i: nat :| SlashDotsAt(Join(cs), i) {
        SlashDotsSplit("", Join(cs), i + 1);
        assert SlashDotsAt(s, i + 1);
      }
    } else if cs != [] {
      JoinedStart(cs);
      assert s == Join(cs);
    } else {
      assert s == "/";
    }
  }

  // ----- validation

  const MAX_PATH_LENGTH: nat := 4096
  const MAX_NAME_LENGTH: nat := 255
  const INVALID_CHARS: string := "<>:\"|?*"
  const RESERVED: seq<string> :=
    ["CON", "PRN", "AUX", "NUL", "COM1", "COM2", "COM3", "LPT1", "LPT2", "LPT3", "CLOCK$"]

  function Upper(c: string): string {
    seq(|c|, i requires 0 <= i < |c| => if 'a' <= c[i] <= 'z' then c[i] - 'a' + 'A' else c[i])
  }

  predicate GoodName(c: string) {
    |c| <= MAX_NAME_LENGTH && Upper(c) !in RESERVED
  }

  /** Letter for letter the same, except that the first may have lower-case letters. */
  predicate SpelledLike(c: string, name: string) {
    |c| == |name| && forall i | 0 <= i < |c| :: c[i] == name[i] || ('a' <= c[i] <= 'z' && c[i] - 'a' + 'A' == name[i])
  }

  lemma LikeUpper(c: string, name: string)
    requires forall i | 0 <= i < |name| :: !('a' <= name[i] <= 'z')
    ensures Upper(c) == name <==> SpelledLike(c, name)
  {
  }

  /** A name is refused exactly if it is longer than 255 characters or a reserved one in any case. */
  lemma GoodNameExactly(c: string)
    ensures GoodName(c) <==>
            && |c| <= 255
            && forall r | r in {"CON", "PRN", "AUX", "NUL", "COM1", "COM2", "COM3", "LPT1", "LPT2", "LPT3", "CLOCK$"} ::
                 !SpelledLike(c, r)
  {
    forall r | r in RESERVED ensures Upper(c) == r <==> SpelledLike(c, r) {
      LikeUpper(c, r);
    }
  }

  /** Some mount point is a prefix of the path. */
  predicate UnderMount(mounts: set<string>, path: string) {
    exists m | m in mounts :: m <= path
  }

  /** What a valid path is, in terms of its characters and of its surviving components. */
  ghost predicate IsValid(path: string, mounts: set<string>, access: bool) {
    && '\0' !in path
    && |path| <= 4096
    && (forall c | c in path :: c !in {'<', '>', ':', '\"', '|', '?', '*'})
    && (forall c | c in Components(path) :: GoodName(c))
    && (DotsBeforeSlash(Components(path)) ==> UnderMount(mounts, Normalize(path)) && access)
  }

  lemma RenderedItems(absolute: bool, cs: seq<string>)
    requires Names(cs)
    ensures Items(Render(absolute, cs)) == (if absolute || cs == [] then [""] else []) + cs
  {
    ItemsOfJoin(cs);
    ItemsCons("", Join(cs));
    assert "" + "/" + Join(cs) == "/" + Join(cs);
    if absolute || cs == [] {
      assert Render(absolute, cs) == "/" + Join(cs);
    } else {
      JoinedStart(cs);
      assert Render(absolute, cs) == Join(cs);
    }
  }

  // ----- the loops

  /** One getline at pos: the item up to the next delimiter, and where the stream is then. */
  function NextItem(s: string, pos: nat): (string, nat)
    requires pos < |s|
  {
    var e := IndexOfSlash(s, pos);
    (s[pos..e], if e < |s| then e + 1 else e)
  }

  lemma {:induction false} IndexInSuffix(s: string, pos: nat, from: nat)
    requires pos <= from <= |s|
    ensures IndexOfSlash(s[pos..], from - pos) == IndexOfSlash(s, from) - pos
    decreases |s| - from
  {
  }

  lemma ItemsStep(s: string, pos: nat)
    requires pos < |s|
    ensures var (item, next) := NextItem(s, pos);
            pos < next <= |s| && Items(s[pos..]) == [item] + Items(s[next..])
  {
    var e := IndexOfSlash(s, pos);
    IndexInSuffix(s, pos, pos);
    if e < |s| {
      assert s[pos..][..e - pos] == s[pos..e] && s[pos..][e - pos + 1..] == s[e + 1..];
    } else {
      assert s[pos..] == s[pos..e] && s[e..] == "";
    }
  }

  lemma {:induction false} JoinAppend(cs: seq<string>, c: string)
    ensures Join(cs + [c]) == if cs == [] then c else Join(cs) + "/" + c
  {
    if cs == [] {
      assert cs + [c] == [c];
    } else if |cs| == 1 {
      assert (cs + [c])[1..] == [c];
    } else {
      JoinAppend(cs[1..], c);
      assert (cs + [c])[1..] == cs[1..] + [c];
      assert cs[0] + "/" + (Join(cs[1..]) + "/" + c) == cs[0] + "/" + Join(cs[1..]) + "/" + c;
    }
  }

  method JoinComponents(prefix: string, components: seq<string>) returns (result: string)
    ensures result == prefix + Join(components)
  {
    result := prefix;
    for i := 0 to |components|
      invariant result == prefix + Join(components[..i])
    {
      JoinAppend(components[..i], components[i]);
      assert components[..i + 1] == components[..i] + [components[i]];
      if i > 0 { result := result + "/"; }
      result := result + components[i];
    }
    assert components[..|components|] == components;
  }

  method NormalizePath(path: string) returns (result: string)
    ensures result == Normalize(path)
  {
    var components: seq<string> := [];
    var pos := 0;
    assert path[0..] == path;
    while pos < |path|
      invariant pos <= |path|
      invariant PushAll(components, Items(path[pos..])) == Components(path)
    {
      ItemsStep(path, pos);
      var (item, next) := NextItem(path, pos);
      assert ([item] + Items(path[next..]))[1..] == Items(path[next..]);
      pos := next;
      if item == "" || item == "." { continue; }
      if item == ".." {
        if components != [] { components := components[..|components| - 1]; }
      } else {
        components := components + [item];
      }
    }
    result := JoinComponents(if IsAbsolute(path) then "/" else "", components);
    result := if result == "" then "/" else result;
  }

  predicate AllGood(items: seq<string>) {
    forall c | c in items :: c == "" || GoodName(c)
  }

  /** The component loop of validatePath, over the items of the normalised path. */
  method CheckComponents(normalized: string) returns (ok: bool)
    ensures ok == AllGood(Items(normalized))
  {
    var pos := 0;
    assert normalized[0..] == normalized;
    while pos < |normalized|
      invariant pos <= |normalized|
      invariant AllGood(Items(normalized)) == AllGood(Items(normalized[pos..]))
    {
      ItemsStep(normalized, pos);
      var (component, next) := NextItem(normalized, pos);
      assert component in Items(normalized[pos..]);
      pos := next;
      if component == "" { continue; }
      if |component| > MAX_NAME_LENGTH { return false; }
      if Upper(component) in RESERVED { return false; }
    }
    return true;
  }

  /** `access` is the security manager's answer for the path. */
  method IsWithinPermittedBoundaries(mounts: set<string>, path: string, access: bool) returns (ok: bool)
    ensures ok == (UnderMount(mounts, path) && access)
  {
    var todo := mounts;
    while todo != {}
      invariant todo <= mounts && forall m | m in mounts && m <= path :: m in todo
      decreases todo
    {
      var m :| m in todo;
      if m <= path { return access; }
      todo := todo - {m};
    }
    return false;
  }

  lemma GoodComponents(path: string)
    ensures AllGood(Items(Normalize(path))) <==> forall c | c in Components(path) :: GoodName(c)
  {
    var cs := Components(path);
    ComponentsAreNames(path);
    RenderedItems(IsAbsolute(path), cs);
    assert "" !in cs;
    assert forall c | c in cs :: c in Items(Normalize(path));
  }

  method ValidatePath(path: string, mounts: set<string>, access: bool) returns (ok: bool)
    ensures ok == IsValid(path, mounts, access)
  {
    if '\0' in path { return false; }
    if |path| > MAX_PATH_LENGTH { return false; }
    if exists c | c in path :: c in INVALID_CHARS { return false; }
    var normalized := NormalizePath(path);
    GoodComponents(path);
    var good := CheckComponents(normalized);
    if !good { return false; }
    TraversalTestFindsOnlyNames(path);
    if Contains(normalized, "../") {
      var within := IsWithinPermittedBoundaries(mounts, normalized, access);
      if !within { return false; }
    }
    return true;
  }

  // ----- mount points

  /** The longest non-empty mount key that is a prefix of the path, or empty if there is none. */
  ghost predicate IsMountPoint(mounts: set<string>, path: string, best: string) {
    && (best != "" ==> best in mounts && best <= path)
    && forall m | m in mounts && m <= path :: |m| <= |best|
  }

  /** The iteration over the mounts is in no particular order. */
  method GetMountPoint(mounts: set<string>, path: string) returns (bestMatch: string)
    ensures IsMountPoint(mounts, path, bestMatch)
  {
    bestMatch := "";
    var bestLength := 0;
    var todo := mounts;
    while todo != {}
      invariant todo <= mounts && bestLength == |bestMatch|
      invariant IsMountPoint(mounts - todo, path, bestMatch)
      decreases todo
    {
      var m :| m in todo;
      todo := todo - {m};
      if m <= path && |m| > bestLength {
        bestMatch := m;
        bestLength := |m|;
      }
    }
    assert mounts - todo == mounts;
  }

  /** There is exactly one such mount point, so the order of the iteration does not matter. */
  lemma MountPointIsUnique(mounts: set<string>, path: string, a: string, b: string)
    requires IsMountPoint(mounts, path, a) && IsMountPoint(mounts, path, b)
    ensures a == b
  {
  }
}

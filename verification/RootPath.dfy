/** Lexical path handling: `canonicalize_root_path`, `is_safe_relative_path` and `join_within_root`. */
module RootPath {
  import opened Options
  import opened Text

  // ---- std::path on Unix ----

  datatype Component = RootDir | CurDir | ParentDir | Normal(name: string)

  predicate IsAbsolute(path: string) {
    StartsWith(path, "/")
  }

  /** Empty pieces and `.` disappear. */
  function Piece(piece: string): seq<Component> {
    if piece == "" || piece == "." then []
    else if piece == ".." then [ParentDir]
    else [Normal(piece)]
  }

  function Body(pieces: seq<string>): seq<Component> {
    if pieces == [] then [] else Piece(pieces[0]) + Body(pieces[1..])
  }

  /** `Path::components`: a leading `.` of a relative path is the only one reported. */
  function Components(path: string): seq<Component> {
    var pieces := Split(path, '/');
    (if IsAbsolute(path) then [RootDir] else if pieces[0] == "." then [CurDir] else []) + Body(pieces)
  }

  /** `PathBuf::push` of a relative component. */
  function Push(buffer: string, name: string): string {
    if buffer == "" || EndsWith(buffer, "/") then buffer + name else buffer + "/" + name
  }

  function LastSlash(s: string): (i: nat)
    requires '/' in s
    ensures i < |s| && s[i] == '/'
    ensures forall k :: i < k < |s| ==> s[k] != '/'
  {
    if s[|s| - 1] == '/' then |s| - 1
    else
      assert s == s[..|s| - 1] + [s[|s| - 1]];
      LastSlash(s[..|s| - 1])
  }

  /** `PathBuf::pop`: cut the last component, keeping the root. */
  function Pop(buffer: string): string {
    if '/' !in buffer then ""
    else if LastSlash(buffer) == 0 then "/"
    else buffer[..LastSlash(buffer)]
  }

  // ---- What a path names ----

  /** The names left on the stack after following the components. */
  function Follow(stack: seq<string>, components: seq<Component>): seq<string>
    decreases |components|
  {
    if components == [] then stack else Follow(Step(stack, components[0]), components[1..])
  }

  function Step(stack: seq<string>, component: Component): seq<string> {
    match component
    case RootDir => []
    case CurDir => stack
    case ParentDir => if stack == [] then [] else stack[..|stack| - 1]
    case Normal(name) => stack + [name]
  }

  function Names(path: string): seq<string> {
    Follow([], Components(path))
  }

  function Render(absolute: bool, names: seq<string>): string {
    (if absolute then "/" else "") + Join(names, '/')
  }

  function Canonical(path: string): string {
    var s := Render(IsAbsolute(path), Names(path));
    if s == "" then "/" else s
  }

  predicate IsName(name: string) {
    name != "" && name != "." && name != ".." && '/' !in name
  }

  predicate AllNames(names: seq<string>) {
    forall k :: 0 <= k < |names| ==> IsName(names[k])
  }

  lemma {:induction false} BodyNames(pieces: seq<string>)
    requires forall k :: 0 <= k < |pieces| ==> '/' !in pieces[k]
    ensures forall c :: c in Body(pieces) ==> c == ParentDir || (c.Normal? && IsName(c.name))
  {
    if pieces != [] {
      BodyNames(pieces[1..]);
    }
  }

  lemma {:induction false} BodyConcat(a: seq<string>, b: seq<string>)
    ensures Body(a + b) == Body(a) + Body(b)
  {
    if a == [] {
      assert a + b == b;
    } else {
      BodyConcat(a[1..], b);
      assert (a + b)[0] == a[0] && (a + b)[1..] == a[1..] + b;
      Associative(Piece(a[0]), Body(a[1..]), Body(b));
    }
  }

  lemma {:induction false} FollowConcat(stack: seq<string>, a: seq<Component>, b: seq<Component>)
    ensures Follow(stack, a + b) == Follow(Follow(stack, a), b)
    decreases |a|
  {
    if a == [] {
      assert a + b == b;
    } else {
      FollowConcat(Step(stack, a[0]), a[1..], b);
      assert (a + b)[1..] == a[1..] + b;
    }
  }

  lemma {:induction false} FollowKeepsNames(stack: seq<string>, components: seq<Component>)
    requires AllNames(stack)
    requires forall c :: c in components && c.Normal? ==> IsName(c.name)
    ensures AllNames(Follow(stack, components))
    decreases |components|
  {
    if components != [] {
      assert components[0] in components;
      FollowKeepsNames(Step(stack, components[0]), components[1..]);
    }
  }

  lemma NamesAreNames(path: string)
    ensures AllNames(Names(path))
    ensures Names(path) == Follow([], Body(Split(path, '/')))
  {
    PiecesHaveNoSeparator(path, '/');
    var body := Body(Split(path, '/'));
    BodyNames(Split(path, '/'));
    var lead := Components(path)[..|Components(path)| - |body|];
    assert Components(path) == lead + body;
    FollowConcat([], lead, body);
    FollowKeepsNames([], Components(path));
  }

  /** Reading back names is the identity. */
  lemma {:induction false} FollowBody(stack: seq<string>, names: seq<string>)
    requires AllNames(names)
    ensures Follow(stack, Body(names)) == stack + names
    decreases |names|
  {
    if names == [] {
      assert stack + names == stack;
    } else {
      assert IsName(names[0]) && Body(names) == [Normal(names[0])] + Body(names[1..]);
      FollowBody(stack + [names[0]], names[1..]);
      assert stack + [names[0]] + names[1..] == stack + names;
    }
  }

  lemma JoinOfNames(names: seq<string>)
    requires AllNames(names) && names != []
    ensures Split(Join(names, '/'), '/') == names
    ensures Join(names, '/') != "" && Join(names, '/')[0] != '/'
    ensures !EndsWith(Join(names, '/'), "/")
  {
    SplitOfJoin(names, '/');
    JoinStarts(names);
    JoinEnds(names);
    EndsWithChar(Join(names, '/'), '/');
  }

  lemma JoinStarts(names: seq<string>)
    requires AllNames(names) && names != []
    ensures Join(names, '/') != "" && Join(names, '/')[0] != '/'
  {
    assert names[0][0] in names[0];
  }

  lemma JoinEnds(names: seq<string>)
    requires AllNames(names) && names != []
    ensures Join(names, '/') != "" && Join(names, '/')[|Join(names, '/')| - 1] != '/'
  {
    var init, last := names[..|names| - 1], names[|names| - 1];
    assert IsName(last) && last[|last| - 1] in last;
    assert names == init + [last] && Join([last], '/') == last;
    if init != [] {
      JoinAround(init, [last], '/');
    }
  }

  lemma NamesOfRender(absolute: bool, names: seq<string>)
    requires AllNames(names) && (absolute || names != [])
    ensures Names(Render(absolute, names)) == names
    ensures IsAbsolute(Render(absolute, names)) == absolute
    ensures Render(absolute, names) != ""
  {
    var path := Render(absolute, names);
    NamesAreNames(path);
    if names == [] {
      assert path == "/";
      assert Split("/", '/') == ["", ""];
      assert Body(["", ""]) == [];
    } else {
      JoinOfNames(names);
      PiecesOfRender(absolute, names);
      FollowBody([], names);
      assert [] + names == names;
      assert IsAbsolute(path) == absolute;
    }
  }

  lemma PiecesOfRender(absolute: bool, names: seq<string>)
    requires AllNames(names) && names != []
    ensures Body(Split(Render(absolute, names), '/')) == Body(names)
  {
    JoinOfNames(names);
    var joined := Join(names, '/');
    if absolute {
      SplitAround("", '/', joined);
      assert "/" + joined == "" + ['/'] + joined;
      assert Split("", '/') == [""] && ([""] + names)[1..] == names;
    } else {
      assert "" + joined == joined;
    }
  }

  // ---- Properties of the canonical spelling ----

  /** A canonical path is `/` or names separated by single slashes, absolute exactly when the input was. */
  lemma NormalForm(path: string)
    ensures Canonical(path) == "/" <==> Names(path) == []
    ensures Canonical(path) != "/" ==>
      && Canonical(path) == Render(IsAbsolute(path), Names(path))
      && AllNames(Names(path))
      && !EndsWith(Canonical(path), "/")
    ensures Names(Canonical(path)) == Names(path)
    ensures IsAbsolute(Canonical(path)) <==> IsAbsolute(path) || Names(path) == []
  {
    NamesAreNames(path);
    var names := Names(path);
    NamesOfRender(true, []);
    assert Render(true, []) == "/" && Render(false, []) == "";
    if names != [] {
      NamesOfRender(IsAbsolute(path), names);
      RenderEnds(IsAbsolute(path), names);
      assert EndsWith("/", "/");
    }
  }

  /** Letter by letter: slashes cut the canonical path into exactly its names, behind one slash if absolute. */
  lemma CanonicalPieces(path: string)
    requires Canonical(path) != "/"
    ensures Split(Canonical(path), '/') == (if IsAbsolute(path) then [""] else []) + Names(path)
  {
    NormalForm(path);
    var joined := Join(Names(path), '/');
    JoinOfNames(Names(path));
    if IsAbsolute(path) {
      SplitAround("", '/', joined);
      assert "/" + joined == "" + ['/'] + joined;
      assert Split("", '/') == [""];
    } else {
      assert "" + joined == joined;
      assert [] + Names(path) == Names(path);
    }
  }

  lemma CanonicalIsIdempotent(path: string)
    ensures Canonical(Canonical(path)) == Canonical(path)
  {
    NormalForm(path);
  }

  lemma {:induction false} RenderDistinguishes(absolute: bool, names: seq<string>)
    requires AllNames(names) && names != []
    ensures Render(true, names) != Render(false, names)
  {
    JoinOfNames(names);
    assert Render(true, names)[0] == '/';
  }

  lemma JoinedNames(p: string, q: string)
    ensures Names(p + "/" + q) == Follow(Names(p), Body(Split(q, '/')))
    ensures IsAbsolute(p + "/" + q) <==> p == "" || IsAbsolute(p)
  {
    SplitAround(p, '/', q);
    NamesAreNames(p);
    NamesAreNames(p + "/" + q);
    BodyConcat(Split(p, '/'), Split(q, '/'));
    FollowConcat([], Body(Split(p, '/')), Body(Split(q, '/')));
    if p != "" {
      assert (p + "/" + q)[..1] == p[..1];
    }
  }

  /**
   * Canonicalizing a prefix first does not change the result, except when a
   * relative prefix that leads nowhere (`.`, `a/..`) is followed by a real name:
   * the prefix alone becomes `/`, so the whole turns from relative to absolute.
   */
  lemma CanonicalOfPrefix(p: string, q: string)
    ensures Canonical(p + "/" + q) == Canonical(Canonical(p) + "/" + q) <==>
            IsAbsolute(p) || p == "" || Names(p) != [] || Names(q) == []
  {
    NormalForm(p);
    JoinedNames(p, q);
    JoinedNames(Canonical(p), q);
    NamesAreNames(q);
    var names := Names(p + "/" + q);
    NamesAreNames(p + "/" + q);
    if names != [] {
      RenderDistinguishes(true, names);
      NamesOfRender(true, names);
      NamesOfRender(false, names);
    }
  }

  // ---- What the names are, piece by piece ----

  function ButLast(names: seq<string>): seq<string> {
    if names == [] then [] else names[..|names| - 1]
  }

  /**
   * What one more piece does: an empty one and `.` nothing, `..` takes the last name
   * away, if there is one, and any other is a name of its own.
   */
  lemma NamesOfLonger(p: string, piece: string)
    requires '/' !in piece
    ensures Names(p + "/" + piece) ==
            if piece == "" || piece == "." then Names(p)
            else if piece == ".." then ButLast(Names(p))
            else Names(p) + [piece]
    ensures IsAbsolute(p + "/" + piece) <==> p == "" || IsAbsolute(p)
  {
    JoinedNames(p, piece);
    SplitWhole(piece, '/');
    assert Body([piece]) == Piece(piece) + [];
    assert Follow(Names(p), Piece(piece)) == Follow(Names(p), Body([piece]));
  }

  lemma NamesOfOnePiece(piece: string)
    requires '/' !in piece
    ensures Names(piece) == if IsName(piece) then [piece] else []
  {
    NamesAreNames(piece);
    SplitWhole(piece, '/');
    assert Body([piece]) == Piece(piece) + [];
    assert [] + [piece] == [piece];
  }

  /** Going into a directory and out again changes nothing, whether the path is absolute or not. */
  lemma ParentUndoesName(p: string, name: string)
    requires IsName(name)
    ensures Canonical(p + "/" + name + "/..") == Canonical(p)
  {
    var longer := p + "/" + name;
    assert longer + "/.." == longer + "/" + "..";
    NamesOfLonger(p, name);
    NamesOfLonger(longer, "..");
    assert ButLast(Names(p) + [name]) == Names(p);
    if p == "" {
      NamesOfOnePiece("");
      NormalForm("");
      NormalForm(longer + "/..");
    }
  }

  /** There is nothing above the root. */
  lemma ParentOfRoot(p: string)
    requires Names(p) == []
    ensures Canonical(p + "/..") == "/"
  {
    assert p + "/.." == p + "/" + "..";
    NamesOfLonger(p, "..");
    NormalForm(p + "/..");
  }

  // ---- Paths inside the project root ----

  predicate IsSafeRelativePath(relative: string) {
    && relative != "" && relative != "."
    && !IsAbsolute(relative) && ParentDir !in Components(relative)
  }

  /** Accepted are exactly the relative paths that name something and have no `..` among their pieces. */
  lemma SafeIff(r: string)
    ensures IsSafeRelativePath(r) <==> r != "" && r != "." && !StartsWith(r, "/") && ".." !in Split(r, '/')
  {
    BodyHasParent(Split(r, '/'));
    var lead := if IsAbsolute(r) then [RootDir] else if Split(r, '/')[0] == "." then [CurDir] else [];
    assert Components(r) == lead + Body(Split(r, '/'));
  }

  lemma {:induction false} BodyHasParent(pieces: seq<string>)
    ensures ParentDir in Body(pieces) <==> ".." in pieces
  {
    if pieces != [] {
      BodyHasParent(pieces[1..]);
      assert pieces == [pieces[0]] + pieces[1..];
    }
  }

  function JoinWithinRoot(root: string, relative: string): Option<string> {
    if IsSafeRelativePath(relative) then Some(Push(root, relative)) else None
  }

  /**
   * An accepted path, joined to an absolute root and canonicalized, spells the
   * root's names followed by its own; it never climbs out.
   */
  lemma SafePathsStayInside(root: string, relative: string)
    requires IsAbsolute(root) && IsSafeRelativePath(relative)
    ensures JoinWithinRoot(root, relative).Some?
    ensures var joined := JoinWithinRoot(root, relative).value;
            && IsAbsolute(joined)
            && Names(Canonical(joined)) == Names(Canonical(root)) + Names(relative)
            && Canonical(joined) == Render(true, Names(root) + Names(relative))
  {
    var joined := Push(root, relative);
    NamesOfJoined(root, relative);
    NamesOfSafe(root, relative);
    assert joined[..1] == root[..1];
    NormalForm(joined);
    NormalForm(root);
    assert Render(true, []) == "/";
  }

  /** Whether or not the root ends in a slash, the joined path walks on from the root's names. */
  lemma NamesOfJoined(root: string, relative: string)
    requires root != ""
    ensures Names(Push(root, relative)) == Follow(Names(root), Body(Split(relative, '/')))
  {
    if EndsWith(root, "/") {
      var trimmed := root[..|root| - 1];
      assert root == trimmed + "/" + "" && Push(root, relative) == trimmed + "/" + relative;
      JoinedNames(trimmed, relative);
      JoinedNames(trimmed, "");
      assert Split("", '/') == [""] && Body([""]) == [];
      assert Follow(Names(trimmed), []) == Names(trimmed);
    } else {
      JoinedNames(root, relative);
    }
  }

  lemma NamesOfSafe(root: string, relative: string)
    requires IsSafeRelativePath(relative)
    ensures Follow(Names(root), Body(Split(relative, '/'))) == Names(root) + Names(relative)
  {
    var body := Body(Split(relative, '/'));
    NamesAreNames(relative);
    assert ParentDir !in body;
    PiecesHaveNoSeparator(relative, '/');
    BodyNames(Split(relative, '/'));
    FollowWithoutParent(Names(root), body);
  }

  lemma {:induction false} FollowWithoutParent(stack: seq<string>, components: seq<Component>)
    requires forall c :: c in components ==> c.Normal?
    ensures Follow(stack, components) == stack + Follow([], components)
    decreases |components|
  {
    if components == [] {
      assert stack + [] == stack;
    } else {
      var name, rest := components[0].name, components[1..];
      assert components[0] in components;
      FollowWithoutParent(stack + [name], rest);
      FollowWithoutParent([] + [name], rest);
      Associative(stack, [] + [name], Follow([], rest));
      assert stack + ([] + [name]) == stack + [name];
    }
  }

  // ---- The algorithm ----

  lemma RootComesFirst(path: string, n: nat)
    requires n < |Components(path)|
    ensures Components(path)[n] == RootDir <==> n == 0 && IsAbsolute(path)
  {
    PiecesHaveNoSeparator(path, '/');
    var body := Body(Split(path, '/'));
    BodyNames(Split(path, '/'));
    assert RootDir !in body;
    var lead := if IsAbsolute(path) then [RootDir] else if Split(path, '/')[0] == "." then [CurDir] else [];
    OnlyLeading(lead, body, n);
  }

  lemma OnlyLeading(lead: seq<Component>, body: seq<Component>, n: nat)
    requires n < |lead + body| && |lead| <= 1 && RootDir !in body
    ensures (lead + body)[n] == RootDir <==> n == 0 && lead == [RootDir]
  {
    if n >= |lead| {
      assert (lead + body)[n] in body;
    }
  }

  lemma RenderEnds(absolute: bool, names: seq<string>)
    requires AllNames(names) && names != []
    ensures !EndsWith(Render(absolute, names), "/") && Render(absolute, names) != ""
  {
    JoinOfNames(names);
    var joined, s := Join(names, '/'), Render(absolute, names);
    EndsWithChar(joined, '/');
    EndsWithChar(s, '/');
    assert s[|s| - 1] == joined[|joined| - 1];
  }

  lemma PushOnRender(absolute: bool, names: seq<string>, name: string)
    requires AllNames(names) && IsName(name)
    ensures Push(Render(absolute, names), name) == Render(absolute, names + [name])
  {
    if names == [] {
      assert names + [name] == [name];
      EndsWithChar("/", '/');
      assert Push("", name) == name && Push("/", name) == "/" + name;
    } else {
      RenderEnds(absolute, names);
      JoinAround(names, [name], '/');
      assert Join([name], '/') == name;
    }
  }

  lemma PopAfterSlash(s: string, front: string, last: string)
    requires s == front + "/" + last && '/' !in last
    ensures Pop(s) == if front == "" then "/" else front
  {
    assert s[|front|] == '/';
    assert forall k :: |front| < k < |s| ==> s[k] == last[k - |front| - 1];
    assert LastSlash(s) == |front|;
    assert s[..|front|] == front;
  }

  lemma PopOnRender(absolute: bool, init: seq<string>, last: string)
    requires AllNames(init) && IsName(last)
    ensures Pop(Render(absolute, init + [last])) == Render(absolute, init)
  {
    if init != [] {
      JoinAround(init, [last], '/');
      JoinOfNames(init);
      PopAfterSlash(Render(absolute, init + [last]), Render(absolute, init), last);
    } else {
      assert init + [last] == [last];
      if absolute {
        PopAfterSlash(Render(absolute, [last]), "", last);
      }
    }
  }

  /** The closure of the source's fold over the components. */
  function FoldStep(buffer: string, component: Component): string {
    match component
    case RootDir => "/"
    case CurDir => buffer
    case ParentDir => Pop(buffer)
    case Normal(name) => Push(buffer, name)
  }

  /** One step on the text of the buffer is one step on the stack of names. */
  lemma FoldStepOnRender(absolute: bool, names: seq<string>, component: Component)
    requires AllNames(names) && (component.Normal? ==> IsName(component.name))
    ensures FoldStep(Render(absolute, names), component) ==
            Render(absolute || component.RootDir?, Step(names, component))
    ensures AllNames(Step(names, component))
  {
    match component
    case RootDir =>
    case CurDir =>
    case ParentDir =>
      PopOneName(absolute, names);
    case Normal(name) =>
      PushOnRender(absolute, names, name);
  }

  lemma PopOneName(absolute: bool, names: seq<string>)
    requires AllNames(names)
    ensures Pop(Render(absolute, names)) == Render(absolute, Step(names, ParentDir))
  {
    if names != [] {
      assert names == names[..|names| - 1] + [names[|names| - 1]];
      PopOnRender(absolute, names[..|names| - 1], names[|names| - 1]);
    }
  }

  lemma StepsSoFar(components: seq<Component>, n: nat)
    requires n < |components|
    ensures Follow([], components[..n + 1]) == Step(Follow([], components[..n]), components[n])
  {
    assert components[..n + 1] == components[..n] + [components[n]];
    FollowConcat([], components[..n], [components[n]]);
  }

  lemma RenderHasNoTrailingSlash(path: string)
    ensures var s := Render(IsAbsolute(path), Names(path));
            && (IsAbsolute(path) ==> StartsWith(s, "/"))
            && (|s| > 1 ==> !EndsWith(s, "/"))
  {
    NormalForm(path);
    if IsAbsolute(path) {
      assert Render(true, Names(path))[..1] == "/";
    }
  }

  function StripSlashes(s: string): string {
    if |s| > 1 && EndsWith(s, "/") then StripSlashes(s[..|s| - 1]) else s
  }

  method CanonicalizeRootPath(path: string) returns (s: string)
    ensures s == Canonical(path)
  {
    var components := Components(path);
    PiecesHaveNoSeparator(path, '/');
    BodyNames(Split(path, '/'));
    var buffer := "";
    ghost var names := [];
    for n := 0 to |components|
      invariant names == Follow([], components[..n]) && AllNames(names)
      invariant buffer == Render(IsAbsolute(path) && n > 0, names)
    {
      RootComesFirst(path, n);
      StepsSoFar(components, n);
      FoldStepOnRender(IsAbsolute(path) && n > 0, names, components[n]);
      buffer := FoldStep(buffer, components[n]);
      names := Step(names, components[n]);
    }
    assert components[..|components|] == components;
    RenderHasNoTrailingSlash(path);
    s := buffer;
    if !StartsWith(s, "/") && StartsWith(path, "/") {
      s := "/" + s;
    }
    while |s| > 1 && EndsWith(s, "/")
      invariant StripSlashes(s) == StripSlashes(buffer)
      decreases |s|
    {
      s := s[..|s| - 1];
    }
    if s == "" {
      return "/";
    }
  }
}

/**
 Path walking of fs/vfs.c: splitting a path into components and resolving it from the
 root or the current directory.
 */
module Path {

  const COMPONENT_MAX: nat := 255
  const MAX_COMPONENTS: nat := 32

  // ---------------------------------------------------------------- splitting

  // The length of the first piece: up to a slash, the end, or 255 characters.
  function PieceLength(p: string, limit: nat): (n: nat)
    ensures n <= |p| && n <= limit
    ensures forall i :: 0 <= i < n ==> p[i] != '/'
    ensures n < |p| && n < limit ==> p[n] == '/'
  {
    if p == [] || p[0] == '/' || limit == 0 then 0
    else
      var n := PieceLength(p[1..], limit - 1);
      assert forall i :: 0 < i < |p| ==> p[i] == p[1..][i - 1];
      n + 1
  }

  // All components of a path.
  function Pieces(p: string): (r: seq<string>)
    ensures forall i :: 0 <= i < |r| ==> IsPiece(r[i])
    decreases |p|
  {
    if p == [] then []
    else if p[0] == '/' then Pieces(p[1..])
    else
      var n := PieceLength(p, COMPONENT_MAX);
      assert n > 0 && IsPiece(p[..n]);
      [p[..n]] + Pieces(p[n..])
  }

  // What a component can be: not empty, at most 255 characters, without slash.
  predicate IsPiece(c: string) {
    0 < |c| <= COMPONENT_MAX && NoSlash(c)
  }

  predicate NoSlash(c: string) {
    forall i :: 0 <= i < |c| ==> c[i] != '/'
  }

  function Take<T>(q: seq<T>, n: nat): seq<T> {
    if |q| <= n then q else q[..n]
  }

  // The components that path_split keeps.
  function Split(p: string, max: nat): (r: seq<string>) {
    Take(Pieces(p), max)
  }

  lemma {:induction false} SkipSlash(p: string, i: nat)
    requires i < |p| && p[i] == '/'
    ensures Pieces(p[i..]) == Pieces(p[i + 1..])
  {
    assert p[i..][1..] == p[i + 1..];
  }

  lemma {:induction false} TakePiece(p: string, i: nat, n: nat)
    requires i + n <= |p| && 0 < n <= COMPONENT_MAX && NoSlash(p[i..i + n])
    requires n == COMPONENT_MAX || i + n == |p| || p[i + n] == '/'
    ensures Pieces(p[i..]) == [p[i..i + n]] + Pieces(p[i + n..])
  {
    var q := p[i..];
    assert q[0] == p[i..i + n][0];
    assert q[..n] == p[i..i + n] && q[n..] == p[i + n..];
    LengthIs(q, COMPONENT_MAX, n);
  }

  lemma {:induction false} LengthIs(p: string, limit: nat, n: nat)
    requires n <= |p| && n <= limit && NoSlash(p[..n])
    requires n == limit || n == |p| || p[n] == '/'
    ensures PieceLength(p, limit) == n
  {
    assert forall i :: 0 <= i < n ==> p[..n][i] == p[i];
  }

  /** path_split: a run of slashes separates components, a longer name is cut into pieces
      of 255 characters, and at most max components are kept. */
  method PathSplit(path: string, max: nat) returns (components: seq<string>)
    ensures components == Split(path, max)
  {
    hide Pieces, NoSlash;
    var p: nat := 0;
    components := [];
    assert path[0..] == path;
    p := SkipSlashes(path, p);
    while p < |path| && |components| < max
      invariant p <= |path| && (p < |path| ==> path[p] != '/') && |components| <= max
      invariant Pieces(path) == components + Pieces(path[p..])
      decreases |path| - p
    {
      var i := NameEnd(path, p);
      TakePiece(path, p, i);
      components := components + [path[p..p + i]];
      p := SkipSlashes(path, p + i);
    }
    if p == |path| {
      assert path[p..] == "";
      NoPieces();
    } else {
      Kept(components, Pieces(path[p..]), max);
    }
  }

  // The inner loop: the length of the component that starts at p.
  method NameEnd(path: string, p: nat) returns (i: nat)
    requires p < |path| && path[p] != '/'
    ensures 0 < i <= COMPONENT_MAX && p + i <= |path| && NoSlash(path[p..p + i])
    ensures i == COMPONENT_MAX || p + i == |path| || path[p + i] == '/'
  {
    i := 0;
    while p + i < |path| && path[p + i] != '/' && i < COMPONENT_MAX
      invariant i <= COMPONENT_MAX && p + i <= |path| && NoSlash(path[p..p + i])
    {
      assert path[p..p + (i + 1)] == path[p..p + i] + [path[p + i]];
      i := i + 1;
    }
  }

  lemma NoPieces()
    ensures Pieces("") == []
  {
  }

  lemma Kept(a: seq<string>, b: seq<string>, n: nat)
    requires |a| == n
    ensures Take(a + b, n) == a
  {
  }

  // The first position from p on that is not a slash.
  method SkipSlashes(path: string, p: nat) returns (q: nat)
    requires p <= |path|
    ensures p <= q <= |path| && (q < |path| ==> path[q] != '/')
    ensures Pieces(path[p..]) == Pieces(path[q..])
  {
    q := p;
    while q < |path| && path[q] == '/'
      invariant p <= q <= |path| && Pieces(path[p..]) == Pieces(path[q..])
    {
      SkipSlash(path, q);
      q := q + 1;
    }
  }

  // ---------------------------------------------------------------- joining

  function Slashes(n: nat): (r: string)
    ensures |r| == n && forall i :: 0 <= i < n ==> r[i] == '/'
  {
    if n == 0 then "" else "/" + Slashes(n - 1)
  }

  // Components separated by one or more slashes: gaps[i] more than one after cs[i].
  function Join(cs: seq<string>, gaps: seq<nat>): string
    requires |gaps| == |cs|
  {
    if cs == [] then "" else cs[0] + Slashes(gaps[0] + 1) + Join(cs[1..], gaps[1..])
  }

  lemma {:induction false} LeadingSlashes(n: nat, p: string)
    ensures Pieces(Slashes(n) + p) == Pieces(p)
  {
    if n == 0 {
      assert Slashes(0) + p == p;
    } else {
      var q := Slashes(n) + p;
      assert q[1..] == Slashes(n - 1) + p;
      LeadingSlashes(n - 1, p);
    }
  }

  lemma FirstComponent(c: string, n: nat, rest: string)
    requires IsPiece(c)
    ensures Pieces(c + Slashes(n + 1) + rest) == [c] + Pieces(rest)
  {
    var q := c + Slashes(n + 1) + rest;
    assert q[0..] == q && q[0..|c|] == c;
    assert q[|c|] == Slashes(n + 1)[0];
    TakePiece(q, 0, |c|);
    assert q[|c|..] == Slashes(n + 1) + rest;
    LeadingSlashes(n + 1, rest);
  }

  lemma {:induction false} JoinedPieces(cs: seq<string>, gaps: seq<nat>)
    requires |gaps| == |cs| && forall i :: 0 <= i < |cs| ==> IsPiece(cs[i])
    ensures Pieces(Join(cs, gaps)) == cs
  {
    if cs != [] {
      JoinedPieces(cs[1..], gaps[1..]);
      FirstComponent(cs[0], gaps[0], Join(cs[1..], gaps[1..]));
      assert cs == [cs[0]] + cs[1..];
    }
  }

  /** path_split inverts joining, with any runs of slashes, if and only if every name has
      at most 255 characters and there are at most max of them. */
  lemma SplitInvertsJoin(lead: nat, cs: seq<string>, gaps: seq<nat>, max: nat)
    requires |gaps| == |cs| && forall i :: 0 <= i < |cs| ==> cs[i] != "" && NoSlash(cs[i])
    ensures Split(Slashes(lead) + Join(cs, gaps), max) == cs
            <==> |cs| <= max && forall i :: 0 <= i < |cs| ==> |cs[i]| <= 255
  {
    LeadingSlashes(lead, Join(cs, gaps));
    var r := Split(Slashes(lead) + Join(cs, gaps), max);
    if forall i :: 0 <= i < |cs| ==> |cs[i]| <= COMPONENT_MAX {
      assert forall i :: 0 <= i < |cs| ==> IsPiece(cs[i]);
      JoinedPieces(cs, gaps);
    } else {
      assert forall i :: 0 <= i < |r| ==> IsPiece(r[i]);
    }
  }

  // ---------------------------------------------------------------- resolving

  datatype Option<T> = None | Some(value: T)

  /** The nodes as the walk sees them: parent links, which nodes are directories, the file
      systems mounted on them, and what each directory's finddir returns. */
  datatype Tree = Tree(root: Option<nat>, cwd: Option<nat>, parent: map<nat, nat>, dirs: set<nat>,
                       mounted: map<nat, nat>, searchable: set<nat>, find: map<(nat, string), nat>)

  function Under(t: Tree, n: nat): nat {
    if n in t.mounted then t.mounted[n] else n
  }

  // One component of the walk.
  function Step(t: Tree, n: nat, c: string): (r: Option<nat>) {
    if c == "." then Some(n)
    else if c == ".." then Some(if n in t.parent then t.parent[n] else n)
    else if n !in t.dirs then None
    else
      var d := Under(t, n);
      if d in t.searchable && (d, c) in t.find then Some(t.find[(d, c)]) else None
  }

  // The walk over components, from the left.
  function Walk(t: Tree, n: nat, cs: seq<string>): (r: Option<nat>)
    decreases |cs|
  {
    if cs == [] then Some(n)
    else
      var s := Step(t, n, cs[0]);
      if s == None then None else Walk(t, s.value, cs[1..])
  }

  // Where the walk starts.
  function Start(t: Tree, path: string): Option<nat> {
    if path != "" && path[0] == '/' then t.root else t.cwd
  }

  // Resolution without the special cases: start, walk, enter what is mounted at the end.
  function Plainly(t: Tree, path: string): (r: Option<nat>) {
    var s := Start(t, path);
    if path == "" || s == None then None
    else
      var e := Walk(t, s.value, Split(path, MAX_COMPONENTS));
      if e == None then None else Some(Under(t, e.value))
  }

  // The special cases of vfs_resolve_path.
  predicate Special(t: Tree, path: string) {
    path == "/" || path == "." || (path == ".." && t.cwd.Some? && t.cwd.value in t.parent)
  }

  function SpecialNode(t: Tree, path: string): Option<nat> {
    if path == "/" then t.root
    else if path == "." then t.cwd
    else if t.cwd.Some? && t.cwd.value in t.parent then Some(t.parent[t.cwd.value])
    else None
  }

  function Resolved(t: Tree, path: string): (r: Option<nat>) {
    if path == "" || Start(t, path) == None then None
    else if Special(t, path) then SpecialNode(t, path)
    else Plainly(t, path)
  }

  /** vfs_resolve_path. */
  method ResolvePath(t: Tree, path: string) returns (r: Option<nat>)
    ensures r == Resolved(t, path)
  {
    if path == "" {
      return None;
    }
    var start := if path[0] == '/' then t.root else t.cwd;
    if start == None {
      return None;
    }
    if path == "/" {
      return t.root;
    }
    if path == "." {
      return t.cwd;
    }
    if path == ".." && t.cwd.Some? && t.cwd.value in t.parent {
      return Some(t.parent[t.cwd.value]);
    }
    var components := PathSplit(path, MAX_COMPONENTS);
    var e := WalkPath(t, start.value, components);
    if e == None {
      return None;
    }
    r := Some(if e.value in t.mounted then t.mounted[e.value] else e.value);
  }

  /** The walk loop of vfs_resolve_path. */
  method WalkPath(t: Tree, start: nat, components: seq<string>) returns (r: Option<nat>)
    ensures r == Walk(t, start, components)
  {
    var current := start;
    var i: nat := 0;
    assert components[0..] == components;
    while i < |components|
      invariant i <= |components| && Walk(t, start, components) == Walk(t, current, components[i..])
    {
      assert components[i..][1..] == components[i + 1..];
      var c := components[i];
      i := i + 1;
      if c == "." {
        continue;
      }
      if c == ".." {
        if current in t.parent {
          current := t.parent[current];
        }
        continue;
      }
      if current !in t.dirs {
        return None;
      }
      if current in t.mounted {
        current := t.mounted[current];
      }
      if current !in t.searchable || (current, c) !in t.find {
        return None;
      }
      current := t.find[(current, c)];
    }
    return Some(current);
  }

  /** Walking a concatenation is walking one part after the other. */
  lemma {:induction false} WalkConcat(t: Tree, n: nat, a: seq<string>, b: seq<string>)
    ensures Walk(t, n, a + b) == (if Walk(t, n, a) == None then None else Walk(t, Walk(t, n, a).value, b))
    decreases |a|
  {
    if a == [] {
      assert a + b == b;
    } else {
      assert (a + b)[1..] == a[1..] + b;
      var s := Step(t, n, a[0]);
      if s != None {
        WalkConcat(t, s.value, a[1..], b);
      }
    }
  }

  // What finddir returns has the directory it was found in as its parent.
  ghost predicate Linked(t: Tree) {
    forall d, c :: (d, c) in t.find ==> t.find[(d, c)] in t.parent && t.parent[t.find[(d, c)]] == d
  }

  /** Going into a found name and back up, anywhere in a path, leads to what is mounted on the
      directory: it is the identity if and only if nothing else is mounted there. */
  lemma DownAndUp(t: Tree, n: nat, a: seq<string>, name: string, b: seq<string>)
    requires Linked(t) && name != "." && name != ".."
    requires Walk(t, n, a).Some? && Step(t, Walk(t, n, a).value, name).Some?
    ensures var here := Walk(t, n, a).value;
            && Walk(t, n, a + [name, ".."] + b) == Walk(t, Under(t, here), b)
            && (Walk(t, n, a + [name, ".."]) == Walk(t, n, a) <==> Under(t, here) == here)
            && (Under(t, here) == here ==> Walk(t, n, a + [name, ".."] + b) == Walk(t, n, a + b))
  {
    var here := Walk(t, n, a).value;
    var down := Step(t, here, name).value;
    assert [name, ".."][1..] == [".."] && [".."][1..] == [];
    assert Walk(t, here, [name, ".."]) == Walk(t, down, [".."]);
    assert Walk(t, here, [name, ".."]) == Some(Under(t, here));
    WalkConcat(t, n, a, [name, ".."]);
    WalkConcat(t, n, a + [name, ".."], b);
    WalkConcat(t, n, a, b);
  }

  // ---------------------------------------------------------------- what the components do

  /** "." is nothing, anywhere in a path. */
  lemma DotIsNothing(t: Tree, n: nat, a: seq<string>, b: seq<string>)
    ensures Walk(t, n, a + ["."] + b) == Walk(t, n, a + b)
  {
    assert ["."][1..] == [];
    WalkConcat(t, n, a, ["."]);
    WalkConcat(t, n, a + ["."], b);
    WalkConcat(t, n, a, b);
    if Walk(t, n, a).Some? {
      assert Walk(t, Walk(t, n, a).value, ["."]) == Some(Walk(t, n, a).value);
    }
  }

  /** A name leads on if and only if what was reached so far is a directory and the directory
      there, or the one mounted on it, can be searched and finds the name; behind a file, or
      a name that is not found, there is nothing. */
  lemma NameLeads(t: Tree, n: nat, a: seq<string>, name: string, b: seq<string>)
    requires name != "." && name != ".." && Walk(t, n, a).Some?
    ensures var here := Walk(t, n, a).value;
            var d := if here in t.mounted then t.mounted[here] else here;
            Walk(t, n, a + [name] + b)
            == if here in t.dirs && d in t.searchable && (d, name) in t.find then Walk(t, t.find[(d, name)], b)
               else None
  {
    var here := Walk(t, n, a).value;
    assert [name][1..] == [];
    WalkConcat(t, n, a, [name]);
    WalkConcat(t, n, a + [name], b);
    assert Walk(t, here, [name]) == Step(t, here, name);
  }

  function Ups(k: nat): (r: seq<string>)
    ensures |r| == k
  {
    seq(k, _ => "..")
  }

  // A node, its parent, that one's parent, and so on up to a node without a parent.
  ghost predicate Lineage(t: Tree, line: seq<nat>) {
    && |line| > 0 && line[|line| - 1] !in t.parent
    && forall i :: 0 <= i < |line| - 1 ==> line[i] in t.parent && t.parent[line[i]] == line[i + 1]
  }

  /** k times ".." leads to the k-th ancestor, and never beyond the last one. */
  lemma {:induction false} UpsLead(t: Tree, line: seq<nat>, k: nat)
    requires Lineage(t, line)
    ensures Walk(t, line[0], Ups(k)) == Some(line[if k < |line| then k else |line| - 1])
    decreases k
  {
    if k > 0 {
      assert Ups(k)[1..] == Ups(k - 1);
      if |line| == 1 {
        UpsLead(t, line, k - 1);
      } else {
        assert Lineage(t, line[1..]);
        UpsLead(t, line[1..], k - 1);
      }
    }
  }

  /** Above the root there is only the root: every absolute path of nothing but "..", "/"
      among them, resolves to it, or to what is mounted on it. */
  lemma RootIsTop(t: Tree, path: string)
    requires path != "" && path[0] == '/' && t.root.Some? && t.root.value !in t.parent
    requires forall i :: 0 <= i < |Pieces(path)| ==> Pieces(path)[i] == ".."
    ensures path != "/" ==>
              Resolved(t, path)
              == Some(if t.root.value in t.mounted then t.mounted[t.root.value] else t.root.value)
    ensures t.root.value !in t.mounted ==> Resolved(t, path) == t.root == Resolved(t, "/")
  {
    hide Pieces;
    var n := |Pieces(path)|;
    var k := if n <= MAX_COMPONENTS then n else MAX_COMPONENTS;
    assert Split(path, MAX_COMPONENTS) == Ups(k);
    UpsLead(t, [t.root.value], k);
  }

  /** "/..", "/../.." and so on are such paths. */
  lemma UpPath(k: nat)
    ensures Pieces("/" + Join(Ups(k), seq(k, _ => 0))) == Ups(k)
  {
    var q := Join(Ups(k), seq(k, _ => 0));
    JoinedPieces(Ups(k), seq(k, _ => 0));
    assert ("/" + q)[1..] == q;
  }

  /** A relative path is the absolute one behind the way to the current directory. */
  lemma RelativeIsAbsolute(t: Tree, way: string, path: string)
    requires way != "" && way[0] == '/' && path != "" && path[0] != '/' && !Special(t, path)
    requires t.root.Some? && t.cwd.Some? && Walk(t, t.root.value, Pieces(way)) == t.cwd
    requires |Pieces(way)| + |Pieces(path)| <= 32
    ensures Resolved(t, way + "/" + path) == Resolved(t, path)
  {
    hide Pieces;
    PiecesConcat(way, path);
    WalkConcat(t, t.root.value, Pieces(way), Pieces(path));
  }

  lemma SpecialPieces()
    ensures Pieces("/") == [] && Pieces(".") == ["."] && Pieces("..") == [".."]
  {
    var slash, dot, dots := "/", ".", "..";
    NoPieces();
    assert slash[1..] == "" && dot[0..] == dot && dot[0..1] == dot && dot[1..] == "";
    assert dots[0..] == dots && dots[0..2] == dots && dots[2..] == "";
    TakePiece(dot, 0, 1);
    TakePiece(dots, 0, 2);
  }

  /** Resolution is the plain walk if and only if the path is none of the special cases or
      nothing is mounted on the node that the special case returns. */
  lemma ResolvedIsWalk(t: Tree, path: string)
    ensures Resolved(t, path) == Plainly(t, path)
            <==> !Special(t, path) || SpecialNode(t, path) == None || SpecialNode(t, path).value !in t.mounted
                 || t.mounted[SpecialNode(t, path).value] == SpecialNode(t, path).value
  {
    SpecialPieces();
    if Special(t, path) {
      assert Split(path, MAX_COMPONENTS) == Pieces(path);
      assert Start(t, path) != None ==>
          Walk(t, Start(t, path).value, Pieces(path)) == SpecialNode(t, path);
    }
  }

  /** The components of two paths joined by a slash. */
  lemma {:induction false} PiecesConcat(p: string, q: string)
    ensures Pieces(p + "/" + q) == Pieces(p) + Pieces(q)
    decreases |p|
  {
    var r := p + "/" + q;
    if p == "" {
      assert r[1..] == q;
    } else if p[0] == '/' {
      assert r[1..] == p[1..] + "/" + q;
      PiecesConcat(p[1..], q);
    } else {
      var n := PieceLength(p, COMPONENT_MAX);
      assert n > 0 && NoSlash(p[..n]);
      hide Pieces, PieceLength, NoSlash;
      assert p[0..] == p && r[0..] == r && p[0..n] == p[..n] == r[0..n];
      assert r[n..] == p[n..] + "/" + q;
      TakePiece(p, 0, n);
      TakePiece(r, 0, n);
      PiecesConcat(p[n..], q);
    }
  }

  lemma LongerPieces(path: string, name: string)
    requires path != "" && IsPiece(name)
    ensures var longer := path + "/" + name + "/..";
            longer != "" && longer[0] == path[0] && Pieces(longer) == Pieces(path) + [name] + [".."]
  {
    SpecialPieces();
    hide Pieces, PieceLength;
    PiecesConcat(path + "/" + name, "..");
    PiecesConcat(path, name);
    assert path + "/" + name + "/.." == path + "/" + name + "/" + "..";
    OnePiece(name);
  }

  /** Without mounts, "path/name/.." resolves to what "path" resolves to, for every name
      found there, if and only if the path does not have 31 components or the name stands
      for its own directory: with 31, only the final ".." is cut off. */
  lemma NameThenParent(t: Tree, path: string, name: string)
    requires Linked(t) && t.mounted == map[] && path != "" && IsPiece(name) && name != "." && name != ".."
    requires Resolved(t, path).Some? && Step(t, Resolved(t, path).value, name).Some?
    ensures Resolved(t, path + "/" + name + "/..") == Resolved(t, path)
            <==> |Pieces(path)| != 31 || Step(t, Resolved(t, path).value, name) == Resolved(t, path)
  {
    hide Pieces, PieceLength, IsPiece;
    var longer := path + "/" + name + "/..";
    ResolvedIsWalk(t, path);
    ResolvedIsWalk(t, longer);
    LongerPieces(path, name);
    var cs := Pieces(path);
    var start := Start(t, path).value;
    if |cs| + 2 <= MAX_COMPONENTS {
      assert cs + [name] + [".."] == cs + [name, ".."];
      DownAndUp(t, start, cs, name, []);
    } else if |cs| + 1 == MAX_COMPONENTS {
      assert Split(longer, MAX_COMPONENTS) == cs + [name];
      WalkConcat(t, start, cs, [name]);
      assert [name][1..] == [];
    } else {
      assert Split(longer, MAX_COMPONENTS) == Split(path, MAX_COMPONENTS);
    }
  }

  function Dots(n: nat): seq<string> {
    seq(n, _ => ".")
  }

  lemma {:induction false} DotsStay(t: Tree, d: nat, n: nat)
    ensures Walk(t, d, Dots(n)) == Some(d)
  {
    if n > 0 {
      assert Dots(n)[1..] == Dots(n - 1);
      DotsStay(t, d, n - 1);
    }
  }

  /** A path of 31 dots leads to the current directory; with "/x/.." behind it, it leads to
      the directory x. */
  lemma LongPathExample()
    ensures var t := Tree(Some(0), Some(0), map[1 := 0], {0}, map[], {0}, map[(0, "x") := 1]);
            var path := Join(Dots(31), seq(31, _ => 0));
            Resolved(t, path) == Some(0) && Resolved(t, path + "/" + "x" + "/..") == Some(1)
  {
    var t := Tree(Some(0), Some(0), map[1 := 0], {0}, map[], {0}, map[(0, "x") := 1]);
    var path := Join(Dots(31), seq(31, _ => 0));
    var longer := path + "/" + "x" + "/..";
    JoinedPieces(Dots(31), seq(31, _ => 0));
    assert path[0] == '.';
    hide Pieces, PieceLength, Join;
    ResolvedIsWalk(t, path);
    ResolvedIsWalk(t, longer);
    LongerPieces(path, "x");
    assert Split(path, MAX_COMPONENTS) == Dots(31);
    DotsStay(t, 0, 31);
    assert Split(longer, MAX_COMPONENTS) == Dots(31) + ["x"];
    WalkConcat(t, 0, Dots(31), ["x"]);
    assert ["x"][1..] == [];
  }

  lemma OnePiece(c: string)
    requires IsPiece(c)
    ensures Pieces(c) == [c]
  {
    NoPieces();
    assert c[0..] == c && c[0..|c|] == c && c[|c|..] == "";
    TakePiece(c, 0, |c|);
  }

  /** With something mounted on the root, "/" resolves to the root and "/." to what is
      mounted there. */
  lemma MountedRootExample()
    ensures var t := Tree(Some(0), None, map[], {0}, map[0 := 1], {0}, map[]);
            Resolved(t, "/") == Some(0) && Plainly(t, "/") == Some(1) == Resolved(t, "/.")
  {
    var t := Tree(Some(0), None, map[], {0}, map[0 := 1], {0}, map[]);
    SpecialPieces();
    var p := "/.";
    assert p[0..] == p && p[1..] == ".";
    SkipSlash(p, 0);
    assert Pieces(p) == ["."] && ["."][1..] == [];
    assert Walk(t, 0, ["."]) == Some(0) && Walk(t, 0, []) == Some(0);
  }
}

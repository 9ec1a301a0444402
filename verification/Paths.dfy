/** The part of Go's path/filepath that the controller uses (Join, Clean and Ext
    on Unix), and why the paths of different managed files never meet. */
module Paths {
  import opened Prelude
  import opened Text

  /** The text between slashes; always at least one component. */
  function Components(path: string): seq<string>
    decreases |path|
  {
    if '/' in path then [Before(path, '/')] + Components(After(path, '/')) else [path]
  }

  function WithSlashes(cs: seq<string>): string {
    if cs == [] then "" else if |cs| == 1 then cs[0] else cs[0] + ("/" + WithSlashes(cs[1..]))
  }

  /** Clean's treatment of one component: empty ones and "." are dropped and ".."
      removes the component before it, except at the start. */
  function Visit(rooted: bool, at: seq<string>, c: string): seq<string> {
    if c == "" || c == "." then at
    else if c == ".." && at != [] && Last(at) != ".." then DropLast(at)
    else if c == ".." && rooted then at
    else at + [c]
  }

  function Resolve(rooted: bool, at: seq<string>, cs: seq<string>): seq<string>
    decreases |cs|
  {
    if cs == [] then at else Resolve(rooted, Visit(rooted, at, cs[0]), cs[1..])
  }

  predicate Rooted(path: string) {
    path != "" && path[0] == '/'
  }

  function Clean(path: string): string {
    var cs := Resolve(Rooted(path), [], Components(path));
    if Rooted(path) then "/" + WithSlashes(cs) else if cs == [] then "." else WithSlashes(cs)
  }

  /** Join of two elements, of which the second is not empty. */
  function Join(root: string, file: string): string {
    if root == "" then Clean(file) else Clean(root + ("/" + file))
  }

  /** The suffix from the last dot of the last component; "" without a dot. */
  function Ext(path: string): string {
    if path == "" || Last(path) == '/' then ""
    else if Last(path) == '.' then "."
    else
      var e := Ext(DropLast(path));
      if e == "" then "" else e + [Last(path)]
  }

  // ---------------------------------------------------------------------
  // Joining a fixed absolute file name to any root
  // ---------------------------------------------------------------------

  /** A component that Clean keeps. */
  predicate Plain(c: string) {
    c != "" && c != "." && c != ".." && '/' !in c
  }

  predicate PlainParts(parts: seq<string>) {
    parts != [] && forall c :: c in parts ==> Plain(c)
  }

  function Front(rooted: bool, at: seq<string>): string {
    (if rooted then "/" else "") + (if at == [] then "" else WithSlashes(at) + "/")
  }

  lemma FrontText(rooted: bool, at: seq<string>, parts: seq<string>)
    requires parts != []
    ensures (if rooted then "/" else "") + WithSlashes(at + parts) == Front(rooted, at) + WithSlashes(parts)
  {
    hide WithSlashes;
    WithSlashesJoined(at, parts);
    Regroup(if rooted then "/" else "", if at == [] then "" else WithSlashes(at) + "/", WithSlashes(parts));
  }

  /** What Join puts in front of a plain file name. */
  function Base(root: string): string {
    Front(root == "" || Rooted(root), Resolve(root == "" || Rooted(root), [], Components(root)))
  }

  lemma ComponentsCut(a: string, b: string)
    requires '/' !in a
    ensures Components(a + ("/" + b)) == [a] + Components(b)
  {
    assert (a + ("/" + b))[|a|] == '/';
    CutAt(a, '/', b);
  }

  lemma CutFirst(a: string)
    requires '/' in a
    ensures '/' !in Before(a, '/') && |After(a, '/')| < |a| && a == Before(a, '/') + ("/" + After(a, '/'))
  {
  }

  lemma {:induction false} ComponentsJoined(a: string, b: string)
    ensures Components(a + ("/" + b)) == Components(a) + Components(b)
    decreases |a|
  {
    if '/' in a {
      hide Components, Before, After;
      var x, y := Before(a, '/'), After(a, '/');
      CutFirst(a);
      ComponentsJoined(y, b);
      Regroup(x, "/" + y, "/" + b);
      Regroup("/", y, "/" + b);
      ComponentsCut(x, y);
      ComponentsCut(x, y + ("/" + b));
    } else {
      ComponentsCut(a, b);
    }
  }

  lemma {:induction false} ComponentsOfParts(parts: seq<string>)
    requires PlainParts(parts)
    ensures Components(WithSlashes(parts)) == parts
  {
    assert Plain(parts[0]);
    if |parts| > 1 {
      assert forall c :: c in parts[1..] ==> c in parts;
      ComponentsOfParts(parts[1..]);
      ComponentsJoined(parts[0], WithSlashes(parts[1..]));
    }
  }

  lemma {:induction false} ResolveBoth(rooted: bool, at: seq<string>, cs: seq<string>, ds: seq<string>)
    ensures Resolve(rooted, at, cs + ds) == Resolve(rooted, Resolve(rooted, at, cs), ds)
    decreases |cs|
  {
    if cs == [] {
      assert cs + ds == ds;
    } else {
      assert (cs + ds)[1..] == cs[1..] + ds;
      ResolveBoth(rooted, Visit(rooted, at, cs[0]), cs[1..], ds);
    }
  }

  lemma {:induction false} ResolvePlain(rooted: bool, at: seq<string>, parts: seq<string>)
    requires forall c :: c in parts ==> Plain(c)
    ensures Resolve(rooted, at, parts) == at + parts
    decreases |parts|
  {
    if parts != [] {
      assert Plain(parts[0]);
      assert forall c :: c in parts[1..] ==> c in parts;
      ResolvePlain(rooted, at + [parts[0]], parts[1..]);
    }
  }

  lemma {:induction false} WithSlashesJoined(cs: seq<string>, ds: seq<string>)
    requires ds != []
    ensures WithSlashes(cs + ds) == (if cs == [] then "" else WithSlashes(cs) + "/") + WithSlashes(ds)
  {
    if cs == [] {
      assert cs + ds == ds;
    } else {
      assert (cs + ds)[1..] == cs[1..] + ds;
      WithSlashesJoined(cs[1..], ds);
      if |cs| > 1 {
        Regroup(WithSlashes(cs[1..]), "/", WithSlashes(ds));
        Regroup("/", WithSlashes(cs[1..]), "/" + WithSlashes(ds));
        Regroup(cs[0], "/" + WithSlashes(cs[1..]), "/" + WithSlashes(ds));
        Regroup(WithSlashes(cs), "/", WithSlashes(ds));
      } else {
        Regroup(cs[0], "/", WithSlashes(ds));
      }
    }
  }

  /** The name of a file with these parts, from the root directory. */
  function FromRoot(parts: seq<string>): string {
    "/" + WithSlashes(parts)
  }

  lemma ComponentsFromRoot(parts: seq<string>)
    requires PlainParts(parts)
    ensures Components(FromRoot(parts)) == [""] + parts
  {
    assert FromRoot(parts) == "" + ("/" + WithSlashes(parts));
    ComponentsJoined("", WithSlashes(parts));
    ComponentsOfParts(parts);
  }

  /** The path that Join cleans. */
  function Uncleaned(root: string, file: string): string {
    if root == "" then file else root + ("/" + file)
  }

  lemma ResolveJoined(root: string, parts: seq<string>)
    requires PlainParts(parts)
    ensures var rooted := root == "" || Rooted(root);
            Resolve(rooted, [], Components(Uncleaned(root, FromRoot(parts))))
            == Resolve(rooted, [], Components(root)) + parts
  {
    var rooted := root == "" || Rooted(root);
    var at := Resolve(rooted, [], Components(root));
    ComponentsFromRoot(parts);
    ResolvePlain(rooted, at, parts);
    assert ([""] + parts)[1..] == parts;
    assert Resolve(rooted, at, [""] + parts) == Resolve(rooted, at, parts);
    if root == "" {
      assert Components(root) == [""] && [""][1..] == [];
      assert at == [] by { assert at == Resolve(rooted, Visit(rooted, [], ""), []); }
    } else {
      ComponentsJoined(root, FromRoot(parts));
      ResolveBoth(rooted, [], Components(root), [""] + parts);
    }
  }

  /** Under every root, relative, absolute, empty or with dots in it, Join only
      puts a text that depends on the root alone in front of the file name. */
  lemma JoinIsPrefix(root: string, parts: seq<string>)
    requires PlainParts(parts)
    ensures Join(root, FromRoot(parts)) == Base(root) + WithSlashes(parts)
  {
    var at := Resolve(root == "" || Rooted(root), [], Components(root));
    var path := Uncleaned(root, FromRoot(parts));
    ResolveJoined(root, parts);
    RootedJoined(root, FromRoot(parts));
    CleanText(path, at + parts);
    FrontText(Rooted(path), at, parts);
    assert Join(root, FromRoot(parts)) == Clean(path);
  }

  /** Roots that resolve to the same directory have the same files. */
  lemma SameDirectory(r: string, s: string, parts: seq<string>)
    requires PlainParts(parts) && (r == "" || Rooted(r)) == (s == "" || Rooted(s))
    requires var rooted := r == "" || Rooted(r);
             Resolve(rooted, [], Components(r)) == Resolve(rooted, [], Components(s))
    ensures Join(r, FromRoot(parts)) == Join(s, FromRoot(parts))
  {
    JoinIsPrefix(r, parts);
    JoinIsPrefix(s, parts);
  }

  lemma ResolveMore(root: string, more: string)
    requires root != ""
    ensures Rooted(root + ("/" + more)) == Rooted(root)
    ensures Resolve(Rooted(root), [], Components(root + ("/" + more)))
            == Resolve(Rooted(root), Resolve(Rooted(root), [], Components(root)), Components(more))
  {
    assert (root + ("/" + more))[0] == root[0];
    ComponentsJoined(root, more);
    ResolveBoth(Rooted(root), [], Components(root), Components(more));
  }

  /** ".." takes back the component before it, as "a/../b" is "b", and ".", and slashes
      too many, change nothing. */
  lemma DotsInRoot(root: string, c: string, parts: seq<string>)
    requires root != "" && Plain(c) && PlainParts(parts)
    ensures Join(root + ("/" + (c + ("/" + ".."))), FromRoot(parts)) == Join(root, FromRoot(parts))
    ensures Join(root + ("/" + "."), FromRoot(parts)) == Join(root, FromRoot(parts))
    ensures Join(root + ("/" + ""), FromRoot(parts)) == Join(root, FromRoot(parts))
  {
    hide Join, Components;
    TakenBack(root, c, parts);
    OneMore(root, ".", parts);
    OneMore(root, "", parts);
  }

  lemma TakenBack(root: string, c: string, parts: seq<string>)
    requires root != "" && Plain(c) && PlainParts(parts)
    ensures Join(root + ("/" + (c + ("/" + ".."))), FromRoot(parts)) == Join(root, FromRoot(parts))
  {
    var at := Resolve(Rooted(root), [], Components(root));
    ComponentsCut(c, "..");
    assert Components("..") == [".."];
    hide Components, Join;
    ResolveMore(root, c + ("/" + ".."));
    BackAndForth(Rooted(root), at, c);
    SameDirectory(root + ("/" + (c + ("/" + ".."))), root, parts);
  }

  lemma BackAndForth(rooted: bool, at: seq<string>, c: string)
    requires Plain(c)
    ensures Resolve(rooted, at, [c] + [".."]) == at
  {
    assert ([c] + [".."])[1..] == [".."] && [".."][1..] == [];
    assert DropLast(at + [c]) == at;
    assert Resolve(rooted, at + [c], [".."]) == at;
  }

  lemma OneMore(root: string, c: string, parts: seq<string>)
    requires root != "" && PlainParts(parts) && (c == "." || c == "")
    ensures Join(root + ("/" + c), FromRoot(parts)) == Join(root, FromRoot(parts))
  {
    var at := Resolve(Rooted(root), [], Components(root));
    assert Components(c) == [c] && [c][1..] == [];
    assert Resolve(Rooted(root), at, [c]) == at;
    ResolveMore(root, c);
    SameDirectory(root + ("/" + c), root, parts);
  }

  /** Under a root of plain components a file has the components of both, and the path
      is absolute if the root is; the root directory itself, also by "..", adds
      nothing, and a relative root keeps its leading "..". */
  lemma JoinSpelled(root: seq<string>, parts: seq<string>)
    requires PlainParts(root) && PlainParts(parts)
    ensures Join(FromRoot(root), FromRoot(parts)) == FromRoot(root + parts)
    ensures Join(WithSlashes(root), FromRoot(parts)) == WithSlashes(root + parts)
    ensures Join("/", FromRoot(parts)) == Join("", FromRoot(parts)) == Join("/..", FromRoot(parts)) == FromRoot(parts)
    ensures Join("..", FromRoot(parts)) == "../" + WithSlashes(parts)
  {
    AbsoluteRoot(root, parts);
    RelativeRoot(root, parts);
    SpecialRoots(parts);
  }

  lemma AbsoluteRoot(root: seq<string>, parts: seq<string>)
    requires PlainParts(root) && PlainParts(parts)
    ensures Join(FromRoot(root), FromRoot(parts)) == FromRoot(root + parts)
  {
    ComponentsFromRoot(root);
    ResolvePlain(true, [], root);
    assert ([""] + root)[1..] == root && [] + root == root;
    assert Resolve(true, [], [""] + root) == Resolve(true, [], root) == root;
    JoinIsPrefix(FromRoot(root), parts);
    WithSlashesJoined(root, parts);
    Regroup("/", WithSlashes(root) + "/", WithSlashes(parts));
  }

  lemma RelativeRoot(root: seq<string>, parts: seq<string>)
    requires PlainParts(root) && PlainParts(parts)
    ensures Join(WithSlashes(root), FromRoot(parts)) == WithSlashes(root + parts)
  {
    PlainIsRelative(root);
    ComponentsOfParts(root);
    ResolvePlain(false, [], root);
    assert [] + root == root;
    JoinIsPrefix(WithSlashes(root), parts);
    WithSlashesJoined(root, parts);
    assert "" + (WithSlashes(root) + "/") == WithSlashes(root) + "/";
  }

  lemma PlainIsRelative(root: seq<string>)
    requires PlainParts(root)
    ensures WithSlashes(root) != "" && !Rooted(WithSlashes(root))
  {
    assert Plain(root[0]);
    assert WithSlashes(root)[0] == root[0][0];
  }

  lemma SpecialRoots(parts: seq<string>)
    requires PlainParts(parts)
    ensures Join("/", FromRoot(parts)) == Join("", FromRoot(parts)) == Join("/..", FromRoot(parts)) == FromRoot(parts)
    ensures Join("..", FromRoot(parts)) == "../" + WithSlashes(parts)
  {
    hide Base, Join;
    JoinIsPrefix("/", parts);
    JoinIsPrefix("", parts);
    JoinIsPrefix("/..", parts);
    JoinIsPrefix("..", parts);
    SlashBase();
    EmptyBase();
    AboveBase();
    ParentBase();
  }

  lemma SlashBase()
    ensures Base("/") == "/"
  {
    ComponentsCut("", "");
    assert "" + ("/" + "") == "/" && Components("") == [""];
    assert Components("/") == ["", ""] && ["", ""][1..] == [""] && [""][1..] == [];
    assert Resolve(true, [], ["", ""]) == Resolve(true, [], [""]) == [];
    assert "/" + "" == "/";
  }

  lemma EmptyBase()
    ensures Base("") == "/"
  {
    assert Components("") == [""] && [""][1..] == [];
    assert Resolve(true, [], [""]) == [];
    assert "/" + "" == "/";
  }

  lemma AboveBase()
    ensures Base("/..") == "/"
  {
    ComponentsCut("", "..");
    assert "" + ("/" + "..") == "/.." && Components("..") == [".."];
    assert Components("/..") == ["", ".."] && ["", ".."][1..] == [".."] && [".."][1..] == [];
    assert Resolve(true, [], ["", ".."]) == Resolve(true, [], [".."]) == [];
    assert "/" + "" == "/";
  }

  lemma ParentBase()
    ensures Base("..") == "../"
  {
    assert Components("..") == [".."] && [".."][1..] == [];
    assert Visit(false, [], "..") == [".."];
    assert Resolve(false, [], [".."]) == [".."];
    assert WithSlashes([".."]) == "..";
    assert "" + (".." + "/") == "../";
  }

  lemma RootedJoined(root: string, file: string)
    requires Rooted(file)
    ensures Rooted(Uncleaned(root, file)) == (root == "" || Rooted(root))
  {
    if root != "" { assert Uncleaned(root, file)[0] == root[0]; }
  }

  lemma CleanText(path: string, cs: seq<string>)
    requires cs != [] && cs == Resolve(Rooted(path), [], Components(path))
    ensures Clean(path) == (if Rooted(path) then "/" else "") + WithSlashes(cs)
  {
    assert "" + WithSlashes(cs) == WithSlashes(cs);
  }

  /** The extension of a name that ends in a dot and plain characters. */
  lemma {:induction false} ExtOf(stem: string, ext: string)
    requires ext != "" && ext[0] == '.' && '.' !in ext[1..] && '/' !in ext
    ensures Ext(stem + ext) == ext
    decreases |ext|
  {
    var path := stem + ext;
    assert Last(path) == Last(ext);
    if |ext| > 1 {
      var shorter := DropLast(ext);
      assert DropLast(path) == stem + shorter;
      assert forall c :: c in shorter[1..] ==> c in ext[1..];
      assert forall c :: c in shorter ==> c in ext;
      ExtOf(stem, shorter);
      assert Last(ext) in ext[1..];
      assert Last(ext) in ext;
    }
  }
}

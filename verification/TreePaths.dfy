/**
 The absolute names of the files that walks from several roots of one directory tree find: a name leads to
 one inode, so a set of seen inodes shared by the walks also keeps their paths apart.
 */
module TreePaths {
  import opened Seqs
  import opened Walk
  import opened WalkPaths

  // ---------------------------------------------------------------------------------------------
  // Names and what they lead to
  // ---------------------------------------------------------------------------------------------

  /** `Path::join` with a relative path. */
  function Joined(root: string, rel: string): string {
    if root == "" || root[|root| - 1] == '/' then root + rel else root + "/" + rel
  }

  /** The canonical path of what a route of names leads to from the top of the file system. */
  function Absolute(route: seq<string>): string {
    "/" + PathOf("", route)
  }

  /** An entry of the directory, within the walk's caps or not. */
  ghost predicate Lists(tree: Tree, dir: nat, e: Entry) {
    tree(dir).Some? && exists i: nat ::
      i < |tree(dir).value| && !IsDots(tree(dir).value[i].name) && tree(dir).value[i] == e
  }

  /** Names are proper, and no directory has two entries of one name. */
  ghost predicate UniqueNames(tree: Tree) {
    forall dir :: tree(dir).Some? ==>
      var raw := tree(dir).value;
      && (forall i: nat :: i < |raw| && !IsDots(raw[i].name) ==> ProperName(raw[i].name))
      && (forall i: nat, j: nat :: i < j < |raw| && !IsDots(raw[i].name) && !IsDots(raw[j].name) ==>
        raw[i].name != raw[j].name)
  }

  lemma SameName(tree: Tree, dir: nat, a: Entry, b: Entry)
    requires UniqueNames(tree) && Lists(tree, dir, a) && Lists(tree, dir, b) && a.name == b.name
    ensures a == b
  {
    var raw := tree(dir).value;
    var i: nat :| i < |raw| && !IsDots(raw[i].name) && raw[i] == a;
    var j: nat :| j < |raw| && !IsDots(raw[j].name) && raw[j] == b;
    assert i == j;
  }

  /** The route leads from one directory to another through directories. */
  ghost predicate LeadsTo(tree: Tree, from: nat, route: seq<string>, to: nat)
    decreases |route|
  {
    if route == [] then from == to
    else exists e :: Lists(tree, from, e) && e.name == route[0] && e.node.Directory?
                     && LeadsTo(tree, e.node.id, route[1..], to)
  }

  /** The route leads from the directory to a regular file with this inode. */
  ghost predicate FileAt(tree: Tree, from: nat, route: seq<string>, inode: nat)
    decreases |route|
  {
    route != [] &&
    exists e :: Lists(tree, from, e) && e.name == route[0] &&
      if |route| == 1 then e.node.Regular? && e.node.inode == inode
      else e.node.Directory? && FileAt(tree, e.node.id, route[1..], inode)
  }

  lemma {:induction false} FileUnique(tree: Tree, from: nat, route: seq<string>, m: nat, n: nat)
    requires UniqueNames(tree) && FileAt(tree, from, route, m) && FileAt(tree, from, route, n)
    ensures m == n
    decreases |route|
  {
    var a :| Lists(tree, from, a) && a.name == route[0] &&
      if |route| == 1 then a.node.Regular? && a.node.inode == m
      else a.node.Directory? && FileAt(tree, a.node.id, route[1..], m);
    var b :| Lists(tree, from, b) && b.name == route[0] &&
      if |route| == 1 then b.node.Regular? && b.node.inode == n
      else b.node.Directory? && FileAt(tree, b.node.id, route[1..], n);
    SameName(tree, from, a, b);
    if |route| > 1 {
      FileUnique(tree, a.node.id, route[1..], m, n);
    }
  }

  /** The first directory of a route. */
  lemma FirstStep(tree: Tree, from: nat, route: seq<string>, to: nat) returns (e: Entry)
    requires LeadsTo(tree, from, route, to) && route != []
    ensures Lists(tree, from, e) && e.name == route[0] && e.node.Directory? && LeadsTo(tree, e.node.id, route[1..], to)
  {
    e :| Lists(tree, from, e) && e.name == route[0] && e.node.Directory? && LeadsTo(tree, e.node.id, route[1..], to);
  }

  lemma FileStep(tree: Tree, from: nat, e: Entry, rest: seq<string>, route: seq<string>, inode: nat)
    requires Lists(tree, from, e) && e.node.Directory? && FileAt(tree, e.node.id, rest, inode)
    requires route != [] && route[0] == e.name && route[1..] == rest
    ensures FileAt(tree, from, route, inode)
  {
    assert rest != [];
  }

  lemma {:induction false} FileBelow(tree: Tree, top: nat, above: seq<string>, dir: nat, route: seq<string>, inode: nat)
    requires LeadsTo(tree, top, above, dir) && FileAt(tree, dir, route, inode)
    ensures FileAt(tree, top, above + route, inode)
    decreases |above|
  {
    if above == [] {
      assert above + route == route;
    } else {
      var e := FirstStep(tree, top, above, dir);
      FileBelow(tree, e.node.id, above[1..], dir, route, inode);
      RestOf(above, route);
      FileStep(tree, top, e, above[1..] + route, above + route, inode);
    }
  }

  lemma RestOf<T>(above: seq<T>, route: seq<T>)
    requires above != []
    ensures (above + route)[0] == above[0] && (above + route)[1..] == above[1..] + route
  {
  }

  lemma {:induction false} AdmittedIsThere(tree: Tree, limits: Limits, f: Frame, route: seq<string>, inode: nat)
    requires Admits(tree, limits, f, route, inode)
    ensures FileAt(tree, f.dir, route, inode)
    decreases |route|
  {
    if |route| == 1 {
      var e := AdmittedFile(tree, limits, f, route, inode);
      HasIsListed(tree, limits, f, e);
    } else {
      var e := AdmittedDirectory(tree, limits, f, route, inode);
      AdmittedIsThere(tree, limits, ChildFrame(f, e), route[1..], inode);
      HasIsListed(tree, limits, f, e);
    }
  }

  lemma HasIsListed(tree: Tree, limits: Limits, f: Frame, e: Entry)
    requires Has(tree, limits, f, e)
    ensures Lists(tree, f.dir, e)
  {
    var i: nat :| LooksAt(limits, tree(f.dir).value, i) && tree(f.dir).value[i] == e;
  }

  ghost predicate AllProper(route: seq<string>) {
    forall n :: n in route ==> ProperName(n)
  }

  lemma {:induction false} RootProper(tree: Tree, from: nat, route: seq<string>, to: nat)
    requires UniqueNames(tree) && LeadsTo(tree, from, route, to)
    ensures AllProper(route)
    decreases |route|
  {
    if route != [] {
      var e := FirstStep(tree, from, route, to);
      RootProper(tree, e.node.id, route[1..], to);
      assert route == [route[0]] + route[1..];
    }
  }

  lemma {:induction false} FileProper(tree: Tree, from: nat, route: seq<string>, inode: nat)
    requires UniqueNames(tree) && FileAt(tree, from, route, inode)
    ensures AllProper(route)
    decreases |route|
  {
    var e :| Lists(tree, from, e) && e.name == route[0] &&
      if |route| == 1 then e.node.Regular? && e.node.inode == inode
      else e.node.Directory? && FileAt(tree, e.node.id, route[1..], inode);
    if |route| > 1 {
      FileProper(tree, e.node.id, route[1..], inode);
    }
    assert route == [route[0]] + route[1..];
  }

  // ---------------------------------------------------------------------------------------------
  // Paths as strings
  // ---------------------------------------------------------------------------------------------

  /** A path goes on past the directory it starts from. */
  lemma PathLonger(rel: string, route: seq<string>)
    requires AllProper(route) && route != []
    ensures |PathOf(rel, route)| > |rel|
  {
    PathHeads(rel, route[0], route[1..]);
  }

  /** Routes of proper names are told apart by their paths. */
  lemma {:induction false} PathInjective(rel: string, a: seq<string>, b: seq<string>)
    requires AllProper(a) && AllProper(b) && PathOf(rel, a) == PathOf(rel, b)
    ensures a == b
    decreases |a|
  {
    if a == [] {
      if b != [] {
        PathLonger(rel, b);
      }
    } else if b == [] {
      PathLonger(rel, a);
    } else {
      PathHeads(rel, a[0], a[1..]);
      PathHeads(rel, b[0], b[1..]);
      HeadUnique(rel, a[0], b[0], PathOf(rel, a));
      PathInjective(Child(rel, a[0]), a[1..], b[1..]);
      assert a == [a[0]] + a[1..] && b == [b[0]] + b[1..];
    }
  }

  lemma {:induction false} PathOnward(rel: string, above: seq<string>, route: seq<string>)
    ensures PathOf(rel, above + route) == PathOf(PathOf(rel, above), route)
    decreases |above|
  {
    if above == [] {
      assert above + route == route;
    } else {
      RestOf(above, route);
      PathOnward(Child(rel, above[0]), above[1..], route);
    }
  }

  /** Below a directory that is not the top, the path is the directory's, a slash, and the path from there. */
  lemma {:induction false} PathBelow(rel: string, route: seq<string>)
    requires AllProper(route) && route != [] && rel != ""
    ensures PathOf(rel, route) == rel + "/" + PathOf("", route)
    decreases |route|
  {
    assert ProperName(route[0]) by { assert route[0] in route; }
    if |route| > 1 {
      PathBelow(Child(rel, route[0]), route[1..]);
      PathBelow(route[0], route[1..]);
      Regroup([], rel + "/", route[0], "/" + PathOf("", route[1..]));
      assert Child(rel, route[0]) + "/" + PathOf("", route[1..])
          == rel + "/" + (route[0] + "/" + PathOf("", route[1..]));
    }
  }

  lemma {:induction false} NoSlashAtEnd(rel: string, route: seq<string>)
    requires AllProper(route) && route != []
    ensures var path := PathOf(rel, route); path != "" && path[|path| - 1] != '/'
    decreases |route|
  {
    assert ProperName(route[0]) by { assert route[0] in route; }
    if |route| > 1 {
      NoSlashAtEnd(Child(rel, route[0]), route[1..]);
    }
  }

  lemma Glue(base: string, rel: string)
    requires base != "" && base[|base| - 1] != '/'
    ensures Joined("/" + base, rel) == "/" + (base + "/" + rel)
  {
    Regroup([], "/" + base, "/", rel);
    Regroup("/", base, "/", rel);
  }

  /** Joining a root with a path below it gives the absolute path of the whole route. */
  lemma JoinedIsAbsolute(above: seq<string>, route: seq<string>)
    requires AllProper(above) && AllProper(route) && route != []
    ensures Joined(Absolute(above), PathOf("", route)) == Absolute(above + route)
  {
    PathOnward("", above, route);
    if above != [] {
      NoSlashAtEnd("", above);
      PathBelow(PathOf("", above), route);
      Glue(PathOf("", above), PathOf("", route));
    } else {
      assert above + route == route;
    }
  }
}

/** Which files of the data volume sync with the bucket, how they are enumerated,
    and the bucket keys they live under. */
module SyncedSet {
  import opened Text

  const TREES: seq<string> := ["certs", "attachments", "sends"]

  /** The paths that sync: the identity files, the configured state file and everything
      in the trees, but nothing that climbs, is absolute or is a partial download. */
  predicate IsSynced(rel: string, state: Option<string>) {
    && !Contains(rel, "..") && !("/" <= rel) && !EndsWith(rel, ".part")
    && (|| rel == "tailscaled.state"
        || state == Some(rel)
        || ("rsa_key" <= rel && '/' !in rel)
        || InTree(rel))
  }

  /** The first path component names one of the recursive trees. */
  predicate InTree(rel: string) {
    var i := Find(rel, '/');
    i < |rel| && rel[..i] in TREES
  }

  lemma FirstComponent(rel: string, dir: string)
    requires '/' !in dir
    ensures (Find(rel, '/') < |rel| && rel[..Find(rel, '/')] == dir) <==> dir + "/" <= rel
  {
    hide Find;
    if dir + "/" <= rel {
      assert rel == dir + ['/'] + rel[|dir| + 1..];
      FindFirst(dir, '/', rel[|dir| + 1..]);
      assert rel[..|dir|] == dir;
    }
    var i := Find(rel, '/');
    if i < |rel| && rel[..i] == dir {
      assert rel[..i + 1] == dir + "/";
    }
  }

  lemma TreesAreThree(rel: string)
    ensures InTree(rel) <==> "certs/" <= rel || "attachments/" <= rel || "sends/" <= rel
  {
    FirstComponent(rel, "certs");
    FirstComponent(rel, "attachments");
    FirstComponent(rel, "sends");
    hide Find;
    assert "certs" + "/" == "certs/" && "attachments" + "/" == "attachments/" && "sends" + "/" == "sends/";
    assert InTree(rel) <==> var i := Find(rel, '/'); i < |rel| && rel[..i] in {"certs", "attachments", "sends"};
  }

  /** The durable set, spelled out. */
  lemma SyncedPaths(rel: string, state: Option<string>)
    ensures IsSynced(rel, state)
            <==> && !(exists i :: 0 <= i <= |rel| - 2 && rel[i] == '.' && rel[i + 1] == '.')
                 && !(rel != "" && rel[0] == '/') && !(|rel| >= 5 && rel[|rel| - 5..] == ".part")
                 && (|| rel == "tailscaled.state" || state == Some(rel)
                     || (|rel| >= 7 && rel[..7] == "rsa_key" && '/' !in rel)
                     || "certs/" <= rel || "attachments/" <= rel || "sends/" <= rel)
  {
    TreesAreThree(rel);
    hide InTree;
    TwoDots(rel);
    assert "rsa_key" <= rel <==> |rel| >= 7 && rel[..7] == "rsa_key";
  }

  lemma {:induction false} TwoDots(rel: string)
    ensures Contains(rel, "..") <==> exists i :: 0 <= i <= |rel| - 2 && rel[i] == '.' && rel[i + 1] == '.'
  {
    if rel != "" {
      TwoDots(rel[1..]);
      assert ".." <= rel <==> |rel| >= 2 && rel[0] == '.' && rel[1] == '.';
      if i :| 0 <= i <= |rel| - 2 && rel[i] == '.' && rel[i + 1] == '.' {
        if i > 0 {
          assert rel[1..][i - 1] == '.' && rel[1..][i - 1 + 1] == '.';
        }
      }
      if i :| 0 <= i <= |rel[1..]| - 2 && rel[1..][i] == '.' && rel[1..][i + 1] == '.' {
        assert rel[i + 1] == '.' && rel[i + 1 + 1] == '.';
      }
    }
  }

  // ------------------------------------------------------ the data volume

  /** A directory as the iteration over its entries, in any order. */
  datatype Dir = End | Item(name: string, node: Node, rest: Dir)
  datatype Node = Leaf | Sub(dir: Dir)

  predicate Named(dir: Dir, name: string) {
    dir.Item? && (dir.name == name || Named(dir.rest, name))
  }

  /** Names are non-empty, hold no slash, and are unique within a directory. */
  predicate GoodDir(dir: Dir) {
    dir.Item? ==>
      && dir.name != "" && '/' !in dir.name && !Named(dir.rest, dir.name)
      && (dir.node.Sub? ==> GoodDir(dir.node.dir))
      && GoodDir(dir.rest)
  }

  /** A regular file exists at the slash-separated path. */
  predicate FileAt(dir: Dir, rel: string) {
    dir.Item? &&
    var i := Find(rel, '/');
    || (dir.name == rel[..i] &&
        if i == |rel| then dir.node.Leaf? else dir.node.Sub? && FileAt(dir.node.dir, rel[i + 1..]))
    || FileAt(dir.rest, rel)
  }

  /** Reading a sub-directory that is missing or is a file yields nothing. */
  function Below(dir: Dir, name: string): Dir {
    if dir.End? then End
    else if dir.name == name && dir.node.Sub? then dir.node.dir
    else Below(dir.rest, name)
  }

  lemma SplitFirst(name: string, sub: string)
    requires '/' !in name
    ensures var rel := name + "/" + sub;
            Find(rel, '/') == |name| && rel[..|name|] == name && rel[|name| + 1..] == sub
  {
    FindFirst(name, '/', sub);
    assert name + "/" + sub == name + ['/'] + sub;
  }

  lemma NoSlash(name: string)
    requires '/' !in name
    ensures Find(name, '/') == |name| && name[..|name|] == name
  {
  }

  lemma {:induction false} OnlyNamedFiles(dir: Dir, rel: string)
    requires FileAt(dir, rel)
    ensures Named(dir, rel[..Find(rel, '/')])
  {
    if FileAt(dir.rest, rel) {
      OnlyNamedFiles(dir.rest, rel);
    }
  }

  lemma {:induction false} BelowIsTheSubdirectory(dir: Dir, name: string, sub: string)
    requires GoodDir(dir) && '/' !in name
    ensures FileAt(dir, name + "/" + sub) <==> FileAt(Below(dir, name), sub)
    ensures GoodDir(Below(dir, name))
  {
    SplitFirst(name, sub);
    if dir.Item? {
      BelowIsTheSubdirectory(dir.rest, name, sub);
      if dir.name == name && FileAt(dir.rest, name + "/" + sub) {
        OnlyNamedFiles(dir.rest, name + "/" + sub);
      }
      if dir.name == name && dir.node.Leaf? && FileAt(Below(dir.rest, name), sub) {
        assert false;
      }
    }
  }

  // ------------------------------------------------------ recursive walk

  /** What the recursive walk of directory `at` collects, in visiting order. */
  function Walked(dir: Dir, at: string, keep: string -> bool): seq<string> {
    if dir.End? then []
    else
      var path := at + "/" + dir.name;
      (match dir.node
       case Sub(below) => Walked(below, path, keep)
       case Leaf => if keep(path) then [path] else [])
      + Walked(dir.rest, at, keep)
  }

  method WalkDir(dir: Dir, at: string, keep: string -> bool, found: seq<string>) returns (out: seq<string>)
    ensures out == found + Walked(dir, at, keep)
    decreases dir
  {
    out := found;
    var todo := dir;
    while todo.Item?
      invariant todo == dir || todo < dir
      invariant out + Walked(todo, at, keep) == found + Walked(dir, at, keep)
      decreases todo
    {
      ghost var before := out;
      var path := at + "/" + todo.name;
      match todo.node {
        case Sub(below) =>
          out := WalkDir(below, path, keep, out);
        case Leaf =>
          if keep(path) {
            out := out + [path];
          }
      }
      WalkedSplits(todo, at, keep, before, out);
      todo := todo.rest;
    }
  }

  /** What the walk collects at its first entry. */
  function First(dir: Dir, at: string, keep: string -> bool): seq<string>
    requires dir.Item?
  {
    var path := at + "/" + dir.name;
    match dir.node
    case Sub(below) => Walked(below, path, keep)
    case Leaf => if keep(path) then [path] else []
  }

  lemma WalkedUnfolds(dir: Dir, at: string, keep: string -> bool)
    requires dir.Item?
    ensures Walked(dir, at, keep) == First(dir, at, keep) + Walked(dir.rest, at, keep)
  {
  }

  lemma WalkedSplits(dir: Dir, at: string, keep: string -> bool, before: seq<string>, after: seq<string>)
    requires dir.Item? && after == before + First(dir, at, keep)
    ensures after + Walked(dir.rest, at, keep) == before + Walked(dir, at, keep)
  {
    WalkedUnfolds(dir, at, keep);
    hide Walked, First;
    Associates(before, First(dir, at, keep), Walked(dir.rest, at, keep));
  }

  lemma FileInSub(dir: Dir, sub: string)
    requires dir.Item? && dir.node.Sub? && '/' !in dir.name && FileAt(dir.node.dir, sub)
    ensures FileAt(dir, dir.name + "/" + sub)
  {
    SplitFirst(dir.name, sub);
  }

  lemma PathsAssociate(at: string, name: string, sub: string)
    ensures at + "/" + name + "/" + sub == at + "/" + (name + "/" + sub)
  {
  }

  lemma FileHere(dir: Dir)
    requires dir.Item? && dir.node.Leaf? && '/' !in dir.name
    ensures FileAt(dir, dir.name)
  {
    NoSlash(dir.name);
  }

  lemma {:induction false} WalkedIsSound(dir: Dir, at: string, keep: string -> bool, path: string) returns (sub: string)
    requires GoodDir(dir)
    requires path in Walked(dir, at, keep)
    ensures path == at + "/" + sub && FileAt(dir, sub) && keep(path)
  {
    if path in Walked(dir.rest, at, keep) {
      sub := WalkedIsSound(dir.rest, at, keep, path);
    } else {
      var here := at + "/" + dir.name;
      if dir.node.Leaf? {
        sub := dir.name;
        FileHere(dir);
      } else {
        var below := WalkedIsSound(dir.node.dir, here, keep, path);
        sub := dir.name + "/" + below;
        FileInSub(dir, below);
        PathsAssociate(at, dir.name, below);
      }
    }
  }

  lemma {:induction false} WalkedIsComplete(dir: Dir, at: string, keep: string -> bool, sub: string)
    requires FileAt(dir, sub) && keep(at + "/" + sub)
    ensures at + "/" + sub in Walked(dir, at, keep)
  {
    var i := Find(sub, '/');
    if FileAt(dir.rest, sub) {
      WalkedIsComplete(dir.rest, at, keep, sub);
    } else if i == |sub| {
      assert at + "/" + dir.name == at + "/" + sub;
    } else {
      var here, rest := at + "/" + dir.name, sub[i + 1..];
      assert here + "/" + rest == at + "/" + sub;
      WalkedIsComplete(dir.node.dir, here, keep, rest);
    }
  }

  // ------------------------------------------------------ the enumeration

  /** Top-level files whose name starts with `rsa_key`. */
  function RsaKeys(dir: Dir): seq<string> {
    if dir.End? then []
    else (if "rsa_key" <= dir.name && dir.node.Leaf? then [dir.name] else []) + RsaKeys(dir.rest)
  }

  lemma {:induction false} RsaKeysExact(dir: Dir, rel: string)
    requires GoodDir(dir)
    ensures rel in RsaKeys(dir) <==> "rsa_key" <= rel && '/' !in rel && FileAt(dir, rel)
  {
    if dir.Item? {
      RsaKeysExact(dir.rest, rel);
      if '/' !in rel {
        NoSlash(rel);
      }
    }
  }

  function Trees(root: Dir, trees: seq<string>, keep: string -> bool): seq<string> {
    if trees == [] then []
    else Walked(Below(root, trees[0]), trees[0], keep) + Trees(root, trees[1..], keep)
  }

  lemma WalkedBelowAreFiles(root: Dir, tree: string, keep: string -> bool, rel: string)
    requires GoodDir(root) && '/' !in tree
    requires rel in Walked(Below(root, tree), tree, keep)
    ensures var i := Find(rel, '/');
            FileAt(root, rel) && keep(rel) && i < |rel| && rel[..i] == tree
  {
    BelowIsTheSubdirectory(root, tree, "");
    var sub := WalkedIsSound(Below(root, tree), tree, keep, rel);
    BelowIsTheSubdirectory(root, tree, sub);
    SplitFirst(tree, sub);
  }

  lemma FilesBelowAreWalked(root: Dir, keep: string -> bool, rel: string)
    requires GoodDir(root) && FileAt(root, rel) && keep(rel) && Find(rel, '/') < |rel|
    ensures var tree := rel[..Find(rel, '/')];
            rel in Walked(Below(root, tree), tree, keep)
  {
    var i := Find(rel, '/');
    var tree, sub := rel[..i], rel[i + 1..];
    assert rel == tree + "/" + sub;
    BelowIsTheSubdirectory(root, tree, sub);
    WalkedIsComplete(Below(root, tree), tree, keep, sub);
  }

  lemma {:induction false} TreesExact(root: Dir, trees: seq<string>, keep: string -> bool, rel: string)
    requires GoodDir(root) && forall t :: t in trees ==> '/' !in t
    ensures var i := Find(rel, '/');
            rel in Trees(root, trees, keep) <==>
            FileAt(root, rel) && keep(rel) && i < |rel| && rel[..i] in trees
  {
    var i := Find(rel, '/');
    if trees != [] {
      TreesExact(root, trees[1..], keep, rel);
      if rel in Walked(Below(root, trees[0]), trees[0], keep) {
        WalkedBelowAreFiles(root, trees[0], keep, rel);
      }
      if FileAt(root, rel) && keep(rel) && i < |rel| && rel[..i] == trees[0] {
        FilesBelowAreWalked(root, keep, rel);
      }
    }
  }

  function Retained(found: seq<string>, keep: string -> bool): (kept: seq<string>)
    ensures forall rel :: rel in kept <==> rel in found && keep(rel)
  {
    if found == [] then []
    else (if keep(found[0]) then [found[0]] else []) + Retained(found[1..], keep)
  }

  function StateFiles(root: Dir, state: Option<string>): seq<string> {
    (if FileAt(root, "tailscaled.state") then ["tailscaled.state"] else [])
    + if state.Some? && state.value != "tailscaled.state" && FileAt(root, state.value) then [state.value] else []
  }

  function Found(root: Dir, state: Option<string>, trees: seq<string>, keep: string -> bool): seq<string> {
    StateFiles(root, state) + RsaKeys(root) + Trees(root, trees, keep)
  }

  function EnumeratedIn(root: Dir, state: Option<string>, trees: seq<string>): seq<string> {
    Sort(Retained(Found(root, state, trees, SyncedBy(state)), SyncedBy(state)))
  }

  function Enumerated(root: Dir, state: Option<string>): seq<string> {
    EnumeratedIn(root, state, TREES)
  }

  /** The durable-set predicate for one configured state file. */
  function SyncedBy(state: Option<string>): string -> bool {
    (rel: string) => IsSynced(rel, state)
  }

  /** The state files, the keys and the trees cover the durable set and hold only files. */
  lemma FoundExact(root: Dir, state: Option<string>, trees: seq<string>, rel: string)
    requires GoodDir(root) && IsSynced(rel, state)
    requires (forall t :: t in trees ==> '/' !in t) && (InTree(rel) ==> rel[..Find(rel, '/')] in trees)
    ensures rel in Found(root, state, trees, SyncedBy(state)) <==> FileAt(root, rel)
  {
    RsaKeysExact(root, rel);
    TreesExact(root, trees, SyncedBy(state), rel);
  }

  lemma SortKeepsMembers(s: seq<string>, x: string)
    ensures x in Sort(s) <==> x in s
  {
    assert x in Sort(s) <==> x in multiset(Sort(s));
  }

  /** The enumeration lists exactly the regular files in the durable set, in path
      order: what push may upload is what pull may write. */
  lemma EnumerationIsExact(root: Dir, state: Option<string>)
    requires GoodDir(root)
    ensures forall rel :: rel in Enumerated(root, state) <==> FileAt(root, rel) && IsSynced(rel, state)
    ensures Ascending(Enumerated(root, state))
  {
    hide FileAt, IsSynced, EnumeratedIn;
    TreesArePlain();
    EnumeratedInIsExact(root, state, TREES);
  }

  lemma TreesArePlain()
    ensures forall t :: t in TREES ==> '/' !in t
  {
    assert TREES[0] == "certs" && TREES[1] == "attachments" && TREES[2] == "sends";
  }

  lemma EnumeratedInIsExact(root: Dir, state: Option<string>, trees: seq<string>)
    requires GoodDir(root)
    requires forall t :: t in trees ==> '/' !in t
    requires forall rel :: InTree(rel) ==> rel[..Find(rel, '/')] in trees
    ensures forall rel :: rel in EnumeratedIn(root, state, trees) <==> FileAt(root, rel) && IsSynced(rel, state)
    ensures Ascending(EnumeratedIn(root, state, trees))
  {
    var found := Found(root, state, trees, SyncedBy(state));
    var kept := Retained(found, SyncedBy(state));
    SortAscends(kept);
    forall rel ensures rel in EnumeratedIn(root, state, trees) <==> FileAt(root, rel) && IsSynced(rel, state) {
      SortKeepsMembers(kept, rel);
      assert rel in kept <==> rel in found && IsSynced(rel, state);
      if IsSynced(rel, state) {
        FoundExact(root, state, trees, rel);
      }
    }
  }

  lemma Associates(a: seq<string>, b: seq<string>, c: seq<string>)
    ensures a + b + c == a + (b + c)
  {
  }

  method ListRsaKeys(root: Dir, found: seq<string>) returns (out: seq<string>)
    ensures out == found + RsaKeys(root)
  {
    out := found;
    var todo := root;
    while todo.Item?
      invariant out + RsaKeys(todo) == found + RsaKeys(root)
      decreases todo
    {
      if "rsa_key" <= todo.name && todo.node.Leaf? {
        out := out + [todo.name];
      }
      todo := todo.rest;
    }
  }

  method WalkTrees(root: Dir, trees: seq<string>, keep: string -> bool, found: seq<string>) returns (out: seq<string>)
    ensures out == found + Trees(root, trees, keep)
  {
    out := found;
    var t := 0;
    while t < |trees|
      invariant 0 <= t <= |trees|
      invariant out + Trees(root, trees[t..], keep) == found + Trees(root, trees, keep)
    {
      ghost var rest := Trees(root, trees[t + 1..], keep);
      assert trees[t..][1..] == trees[t + 1..];
      Associates(out, Walked(Below(root, trees[t]), trees[t], keep), rest);
      out := WalkDir(Below(root, trees[t]), trees[t], keep, out);
      t := t + 1;
    }
  }

  method LocalSyncedFiles(root: Dir, state: Option<string>) returns (files: seq<string>)
    ensures files == Enumerated(root, state)
  {
    files := StateFiles(root, state);
    files := ListRsaKeys(root, files);
    files := WalkTrees(root, TREES, SyncedBy(state), files);
    files := Sort(Retained(files, SyncedBy(state)));
  }
}

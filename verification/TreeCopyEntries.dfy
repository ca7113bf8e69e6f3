/** The entries of a copy by their addresses: the names on the way from the
    source root. Nothing here is said by way of the recursive listing. */
module TreeCopyEntries {
  import opened JsText
  import opened Paths
  import opened Exclusions
  import opened Wrappers
  import opened TreeCopy
  import opened TreeCopyLaws
  import opened TreeCopySafety

  /** Follow the names down from a directory. */
  ghost function At(f: Forest, names: seq<Text>): (r: Option<Node>)
    decreases f
  {
    match f
    case Nil => None
    case Cons(name, node, rest) =>
      if names == [] then None
      else if names[0] != name then At(rest, names)
      else if |names| == 1 then Some(node)
      else if node.Dir? then At(node.children, names[1..])
      else None
  }

  /** The names on the way to a path; none for the source root itself. */
  function Address(path: Text): seq<Text> {
    if path == [] then [] else Split(path, SLASH)
  }

  lemma AddressOfChild(rel: Text, name: Text)
    requires SLASH !in name && name != []
    ensures Address(Child(rel, name)) == Address(rel) + [name]
  {
    SplitClean(name, SLASH);
    if rel != [] {
      SplitAppend(rel, SLASH, name);
    }
  }

  lemma AddressIsInjective(p: Text, q: Text)
    requires Address(p) == Address(q)
    ensures p == q
  {
    JoinSplit(p, SLASH);
    JoinSplit(q, SLASH);
  }

  lemma {:induction false} OnlyNames(f: Forest, names: seq<Text>)
    requires names != [] && names[0] !in Names(f)
    ensures At(f, names) == None
  {
    if f.Cons? {
      OnlyNames(f.rest, names);
    }
  }

  /** Below `rel` there is this node at that path. */
  ghost predicate Lies(rel: Text, f: Forest, path: Text, node: Node) {
    var dir, s := Address(rel), Address(path);
    dir < s && At(f, s[|dir|..]) == Some(node)
  }

  lemma LiesIff(rel: Text, f: Forest, path: Text, node: Node)
    requires f.Cons? && WellFormedForest(f)
    ensures var c := Child(rel, f.name);
            Lies(rel, f, path, node) <==>
            || (path == c && node == f.node)
            || (f.node.Dir? && Lies(c, f.node.children, path, node))
            || Lies(rel, f.rest, path, node)
  {
    var dir, s := Address(rel), Address(path);
    AddressOfChild(rel, f.name);
    if dir < s {
      var t := s[|dir|..];
      assert s == dir + t;
      if t[0] == f.name {
        NotLater(f);
        OnlyNames(f.rest, t);
        if |t| == 1 {
          assert s == dir + [f.name];
          AddressIsInjective(path, Child(rel, f.name));
        } else {
          assert s[..|dir| + 1] == dir + [f.name];
          assert s[|dir| + 1..] == t[1..];
        }
      }
    }
  }

  lemma NotLater(f: Forest)
    requires f.Cons? && WellFormedForest(f)
    ensures f.name !in Names(f.rest)
  {
    BeforeIsTotal(f.name, f.name);
  }

  lemma {:induction false} ListedIff(rel: Text, f: Forest, path: Text, node: Node)
    requires WellFormedForest(f)
    ensures Entry(path, node) in AllEntries(rel, f) <==> Lies(rel, f, path, node)
    decreases f
  {
    if f.Cons? {
      var c := Child(rel, f.name);
      LiesIff(rel, f, path, node);
      ListedIff(rel, f.rest, path, node);
      if f.node.Dir? {
        ListedIff(c, f.node.children, path, node);
      }
    }
  }

  /** The listing holds what the tree has at each address, and nothing else. */
  lemma EntryIff(root: Forest, path: Text, node: Node)
    requires WellFormedForest(root)
    ensures Entry(path, node) in AllEntries([], root) <==> path != [] && At(root, Split(path, SLASH)) == Some(node)
  {
    ListedIff([], root, path, node);
    if path != [] {
      assert Address(path)[0..] == Address(path);
    }
  }

  // ---- The order of the listing ----

  /** A directory comes before what is below it, and of two entries that part
      ways the one whose name sorts first there. */
  ghost predicate ListedBefore(a: Text, b: Text) {
    var s, t := Address(a), Address(b);
    s < t || exists k :: 0 <= k < |s| && k < |t| && s[..k] == t[..k] && Before(s[k], t[k])
  }

  ghost predicate InOrder(v: seq<Entry>) {
    forall i, j :: 0 <= i < j < |v| ==> ListedBefore(v[i].path, v[j].path)
  }

  lemma InOrderAppend(a: seq<Entry>, b: seq<Entry>)
    requires InOrder(a) && InOrder(b)
    requires forall x <- a, y <- b :: ListedBefore(x.path, y.path)
    ensures InOrder(a + b)
  {
    hide ListedBefore;
    var v := a + b;
    forall i, j | 0 <= i < j < |v|
      ensures ListedBefore(v[i].path, v[j].path)
    {
      if j < |a| {
        assert v[i] == a[i] && v[j] == a[j];
      } else if i < |a| {
        assert v[i] in a && v[j] in b;
      } else {
        assert v[i] == b[i - |a|] && v[j] == b[j - |a|];
      }
    }
  }

  /** Two entries below `rel` whose names there sort apart. */
  lemma PartWays(rel: Text, a: Text, b: Text)
    requires Address(rel) < Address(a) && Address(rel) < Address(b)
    requires Before(Address(a)[|Address(rel)|], Address(b)[|Address(rel)|])
    ensures ListedBefore(a, b)
  {
    var k := |Address(rel)|;
    assert Address(a)[..k] == Address(b)[..k];
  }

  lemma LaterName(rel: Text, f: Forest, e: Entry)
    requires WellFormedForest(f) && e in AllEntries(rel, f)
    ensures Address(rel) < Address(e.path) && Address(e.path)[|Address(rel)|] in Names(f)
  {
    ListedIff(rel, f, e.path, e.node);
    var t := Address(e.path)[|Address(rel)|..];
    if t[0] !in Names(f) {
      OnlyNames(f, t);
    }
  }

  lemma {:induction false} ListingIsInOrder(rel: Text, f: Forest)
    requires WellFormedForest(f)
    ensures InOrder(AllEntries(rel, f))
    decreases f
  {
    if f.Cons? {
      var c := Child(rel, f.name);
      var head := [Entry(c, f.node)];
      var below := if f.node.Dir? then AllEntries(c, f.node.children) else [];
      var rest := AllEntries(rel, f.rest);
      AddressOfChild(rel, f.name);
      if f.node.Dir? {
        ListingIsInOrder(c, f.node.children);
      }
      forall e | e in below
        ensures Address(c) < Address(e.path)
      {
        LaterName(c, f.node.children, e);
      }
      InOrderAppend(head, below);
      ListingIsInOrder(rel, f.rest);
      forall x, y | x in head + below && y in rest
        ensures ListedBefore(x.path, y.path)
      {
        LaterName(rel, f.rest, y);
        PartWays(rel, x.path, y.path);
      }
      InOrderAppend(head + below, rest);
    }
  }

  lemma {:induction false} FilterKeepsOrder(keep: Entry -> bool, v: seq<Entry>)
    requires InOrder(v)
    ensures InOrder(Filter(keep, v))
  {
    hide ListedBefore;
    if v != [] {
      assert forall i :: 0 <= i < |v| - 1 ==> v[1..][i] == v[i + 1];
      FilterKeepsOrder(keep, v[1..]);
      if keep(v[0]) {
        forall y | y in Filter(keep, v[1..])
          ensures ListedBefore(v[0].path, y.path)
        {
          assert y in v[1..];
        }
        InOrderAppend([v[0]], Filter(keep, v[1..]));
      }
    }
  }

  /** The tree has this node at that address and the copy is to have it too. */
  ghost predicate Wanted(o: Options, root: Forest, path: Text, node: Node) {
    path != [] && At(root, Split(path, SLASH)) == Some(node) && !o.exclusions.Excludes(path)
  }

  /** The entries a copy processes: what the tree has at the addresses that are
      not excluded, in order. */
  lemma KeptIff(o: Options, root: Forest)
    requires WellFormedForest(root)
    ensures InOrder(Kept(Excluding(o), root))
    ensures forall e :: e in Kept(Excluding(o), root) <==> Wanted(o, root, e.path, e.node)
  {
    ListingIsInOrder([], root);
    FilterKeepsOrder(Keeping(Excluding(o)), AllEntries([], root));
    forall e
      ensures e in Kept(Excluding(o), root) <==> Wanted(o, root, e.path, e.node)
    {
      EntryIff(root, e.path, e.node);
      assert e == Entry(e.path, e.node);
    }
  }

  // ---- What is asked of an entry, and what becomes of it ----

  /** What a copy needs of one entry, by its address. */
  ghost predicate Suits(host: Host, o: Options, path: Text, node: Node) {
    var names := Split(path, SLASH);
    && |names| <= o.limits.maxDepth && |path| <= o.limits.maxPathLength
    && (forall n <- names :: n != U(".."))
    && path != [] && path[0] != '\\' as int
    && !host.lstatFails(path)
    && match node
       case Special => false
       case Symlink => !o.failOnSymlink
       case Dir(_) => host.mkdir(path).Done? && !host.readdirFails(path)
       case File(content, privileged, _) =>
         !privileged && |content| <= o.limits.maxSingleFileBytes && host.copy(path).Written?
  }

  lemma AcceptableIff(host: Host, o: Options, root: Forest)
    requires WellFormedForest(root)
    ensures AllAcceptable(host, o, Kept(Excluding(o), root)) <==>
            forall path, node | Wanted(o, root, path, node) :: Suits(host, o, path, node)
  {
    KeptIff(o, root);
    var v := Kept(Excluding(o), root);
    forall e: Entry | Wanted(o, root, e.path, e.node)
      ensures Acceptable(host, o, e) <==> Suits(host, o, e.path, e.node)
    {
      SuitsIff(host, o, root, e);
    }
    forall path, node | Wanted(o, root, path, node)
      ensures Entry(path, node) in v
    {
      assert Wanted(o, root, Entry(path, node).path, Entry(path, node).node);
    }
  }

  lemma SuitsIff(host: Host, o: Options, root: Forest, e: Entry)
    requires WellFormedForest(root) && Wanted(o, root, e.path, e.node)
    ensures Acceptable(host, o, e) <==> Suits(host, o, e.path, e.node)
  {
    FirstIsNotSlash(root, e.path);
    assert PARENT == U("..");
    assert StartsWith(e.path, [BACKSLASH]) <==> e.path[0] == BACKSLASH;
  }

  lemma FirstIsNotSlash(root: Forest, path: Text)
    requires WellFormedForest(root) && path != [] && At(root, Split(path, SLASH)).Some?
    ensures path[0] != SLASH
  {
    var names := Split(path, SLASH);
    if names[0] !in Names(root) {
      OnlyNames(root, names);
    }
    NamesAreClean(root);
  }

  lemma {:induction false} EffectsIff(v: seq<Entry>, x: Placed)
    ensures x in Effects(v) <==>
            || (x.Made? && exists e <- v :: e.path == x.path && e.node.Dir?)
            || (x.Copied? && exists e <- v :: e.path == x.path && e.node.File? && e.node.content == x.content)
  {
    if v != [] {
      EffectsIff(v[1..], x);
      assert forall e :: e in v <==> e == v[0] || e in v[1..];
    }
  }

  /** What a successful copy leaves: the directories and files that are wanted,
      with their contents, and nothing else. */
  lemma DeliveredIff(host: Host, o: Options, root: Forest, x: Placed)
    requires WellFormedForest(root) && FullRun(host, o, root).Running?
    ensures x in FullRun(host, o, root).progress.placed <==>
            match x
            case Made(path) => exists node :: Wanted(o, root, path, node) && node.Dir?
            case Copied(path, content) =>
              exists node :: Wanted(o, root, path, node) && node.File? && node.content == content
            case Partial(_, _) => false
  {
    CopyDelivers(host, o, root);
    KeptIff(o, root);
    var v := Kept(Excluding(o), root);
    EffectsIff(v, x);
    forall node | Wanted(o, root, x.path, node)
      ensures Entry(x.path, node) in v
    {
      assert Wanted(o, root, Entry(x.path, node).path, Entry(x.path, node).node);
    }
  }
}

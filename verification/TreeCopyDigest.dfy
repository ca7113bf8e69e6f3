/** What the digest of a copied tree is a digest of: a text that can be read
    back, so that equal digests mean equal files. */
module TreeCopyDigest {
  import opened JsText
  import opened Exclusions
  import opened Paths
  import opened Wrappers
  import opened TreeCopy
  import opened TreeCopyLaws

  // ---- Reading the digested text ----

  /** A text up to a unit, and what comes after that unit. */
  function Cut(s: Text, unit: Unit): (r: (Text, Text))
    ensures s != [] ==> |r.1| < |s|
  {
    if s == [] then ([], [])
    else if s[0] == unit then ([], s[1..])
    else
      var rest := Cut(s[1..], unit);
      ([s[0]] + rest.0, rest.1)
  }

  /** Lines of a path, the unit 0, a hash and the unit 10. */
  function ReadDigests(s: Text): seq<(Text, Text)>
    decreases |s|
  {
    if s == [] then []
    else
      var path := Cut(s, 0);
      var hash := Cut(path.1, 10);
      [(path.0, hash.0)] + ReadDigests(hash.1)
  }

  /** The paths of the files among the entries, in order, each with the hash of
      its content. */
  function FilesAndHashes(host: Host, entries: seq<Entry>): seq<(Text, Text)> {
    if entries == [] then []
    else
      (if entries[0].node.File? then [(entries[0].path, host.contentHash(entries[0].node.content))] else [])
      + FilesAndHashes(host, entries[1..])
  }

  /** Paths hold no NUL, as no path on the system does, and hashes no line end. */
  ghost predicate Readable(host: Host, entries: seq<Entry>) {
    forall e <- entries :: e.node.File? ==> 0 !in e.path && 10 !in host.contentHash(e.node.content)
  }

  lemma {:induction false} CutAt(a: Text, unit: Unit, b: Text)
    requires unit !in a
    ensures Cut(a + [unit] + b, unit) == (a, b)
  {
    var s := a + [unit] + b;
    if a == [] {
      assert s[1..] == b;
    } else {
      assert s[1..] == a[1..] + [unit] + b;
      CutAt(a[1..], unit, b);
      assert a == [a[0]] + a[1..];
    }
  }

  lemma OneLine(path: Text, hash: Text, rest: Text)
    requires 0 !in path && 10 !in hash
    ensures ReadDigests(DigestLine(path, hash) + rest) == [(path, hash)] + ReadDigests(rest)
  {
    var s := DigestLine(path, hash) + rest;
    assert s == path + [0] + (hash + [10] + rest);
    CutAt(path, 0, hash + [10] + rest);
    CutAt(hash, 10, rest);
  }

  lemma {:induction false} DigestTextIsRead(host: Host, entries: seq<Entry>)
    requires Readable(host, entries)
    ensures ReadDigests(DigestText(host, entries)) == FilesAndHashes(host, entries)
  {
    hide DigestLine;
    if entries != [] {
      var e := entries[0];
      assert forall d <- entries[1..] :: d in entries;
      assert e in entries;
      DigestTextIsRead(host, entries[1..]);
      if e.node.File? {
        OneLine(e.path, host.contentHash(e.node.content), DigestText(host, entries[1..]));
      } else {
        EmptyPrefix(DigestText(host, entries[1..]));
        EmptyPrefix(FilesAndHashes(host, entries[1..]));
      }
    }
  }

  // ---- What a copy digests ----

  function Digested(host: Host, o: Options, root: Forest): Text {
    FullRun(host, o, root).progress.aggregate
  }

  /** Read back, the text a successful copy digests is the kept files in order,
      each with the hash of its content. */
  lemma DigestedIsRead(host: Host, o: Options, root: Forest)
    requires WellFormedForest(root) && FullRun(host, o, root).Running? && o.digests
    requires Readable(host, Kept(Excluding(o), root))
    ensures ReadDigests(Digested(host, o, root)) == FilesAndHashes(host, Kept(Excluding(o), root))
  {
    hide FullRun, Kept, DigestText;
    CopyDelivers(host, o, root);
    DigestTextIsRead(host, Kept(Excluding(o), root));
  }

  lemma SamePairsSameText(host: Host, a: seq<Entry>, other: Host, b: seq<Entry>)
    requires Readable(host, a) && Readable(other, b)
    ensures DigestText(host, a) == DigestText(other, b) <==> FilesAndHashes(host, a) == FilesAndHashes(other, b)
  {
    hide DigestText, FilesAndHashes, Readable;
    DigestTextIsRead(host, a);
    DigestTextIsRead(other, b);
    TextOfPairs(host, a);
    TextOfPairs(other, b);
  }

  /** The text depends on the pairs alone. */
  function Written(pairs: seq<(Text, Text)>): Text {
    if pairs == [] then [] else DigestLine(pairs[0].0, pairs[0].1) + Written(pairs[1..])
  }

  lemma {:induction false} TextOfPairs(host: Host, entries: seq<Entry>)
    ensures DigestText(host, entries) == Written(FilesAndHashes(host, entries))
  {
    hide DigestLine;
    if entries != [] {
      TextOfPairs(host, entries[1..]);
      if entries[0].node.File? {
        assert FilesAndHashes(host, entries)[1..] == FilesAndHashes(host, entries[1..]);
      } else {
        EmptyPrefix(DigestText(host, entries[1..]));
        EmptyPrefix(FilesAndHashes(host, entries[1..]));
      }
    }
  }

  /** Two copies report one digest exactly when they kept the same files, in the
      same order, with the same hashes, if the hash of texts tells the two
      digested texts apart. */
  lemma DigestsAgreeIff(host: Host, o: Options, root: Forest, other: Host, p: Options, forest: Forest)
    requires WellFormedForest(root) && FullRun(host, o, root).Running? && o.digests
    requires WellFormedForest(forest) && FullRun(other, p, forest).Running? && p.digests
    requires Readable(host, Kept(Excluding(o), root)) && Readable(other, Kept(Excluding(p), forest))
    requires host.textHash(Digested(host, o, root)) == other.textHash(Digested(other, p, forest)) <==>
             Digested(host, o, root) == Digested(other, p, forest)
    ensures var a, b := ResultOf(host, o, FullRun(host, o, root)), ResultOf(other, p, FullRun(other, p, forest));
            && a.Completed? && b.Completed?
            && (a.digest == b.digest <==>
                  FilesAndHashes(host, Kept(Excluding(o), root)) == FilesAndHashes(other, Kept(Excluding(p), forest)))
  {
    hide FullRun, Kept, DigestText, FilesAndHashes, Readable;
    CopyDelivers(host, o, root);
    CopyDelivers(other, p, forest);
    SamePairsSameText(host, Kept(Excluding(o), root), other, Kept(Excluding(p), forest));
  }

  /** Nothing is digested unless asked for, and a result has a digest and a record
      exactly if it is a success that was to have them. */
  lemma DigestsOnDemand(host: Host, o: Options, root: Forest)
    ensures var r := ResultOf(host, o, FullRun(host, o, root));
            && (r.Completed? <==> FullRun(host, o, root).Running?)
            && r.counts == FullRun(host, o, root).progress.counts
            && (r.Completed? ==> (r.digest.Some? <==> o.digests) && (r.fileDigests.Some? <==> o.digests))
    ensures !o.digests && FullRun(host, o, root).Running? ==>
              Digested(host, o, root) == [] && FullRun(host, o, root).progress.fileDigests == map[]
  {
    if FullRun(host, o, root).Running? {
      RunAccounts(host, o, Events(Excluding(o), root), START);
    }
  }
}

/** Archiving a whole tree: `find` collects every object in pre-order, and
    `recursive_archive` writes all collected directories, then all other
    objects, each group in the order `find` met them. */
module TreeArchive {
  import opened LittleEndian
  import opened Encoder

  /** The objects `find` collects under `n`: `n` itself, then the
      collection of each child in turn. */
  function PreOrder(n: Node): (r: seq<Node>)
    ensures |r| > 0 && r[0] == n
    decreases n, 1
  {
    if n.File? then [n] else [n] + PreOrderAll(n.children)
  }

  /** The collections of a list of siblings, one after the other. */
  function PreOrderAll(ns: seq<Node>): seq<Node>
    decreases ns, 0
  {
    if |ns| == 0 then [] else PreOrderAll(ns[..|ns| - 1]) + PreOrder(ns[|ns| - 1])
  }

  /** The directories of `s`, in order. */
  function Dirs(s: seq<Node>): seq<Node>
  {
    if |s| == 0 then []
    else Dirs(s[..|s| - 1]) + (if s[|s| - 1].Dir? then [s[|s| - 1]] else [])
  }

  /** The objects of `s` that are not directories, in order. */
  function NonDirs(s: seq<Node>): seq<Node>
  {
    if |s| == 0 then []
    else NonDirs(s[..|s| - 1]) + (if s[|s| - 1].Dir? then [] else [s[|s| - 1]])
  }

  /** The order in which `recursive_archive` writes the tree under `root`. */
  function ArchiveOrder(root: Node): seq<Node>
  {
    Dirs(PreOrder(root)) + NonDirs(PreOrder(root))
  }

  /** The images of the nodes of `s` under `image`, back to back. */
  function Concat(image: Node -> seq<u8>, s: seq<Node>): seq<u8>
  {
    if |s| == 0 then [] else Concat(image, s[..|s| - 1]) + image(s[|s| - 1])
  }

  /** The entries of `s`, back to back. */
  function EntriesBytes(s: seq<Node>): seq<u8>
  {
    Concat(EntryBytes, s)
  }

  /** The `Vec<PathBuf>` that `find` pushes into. */
  class Collected {
    var entries: seq<Node>

    constructor()
      ensures entries == []
    {
      entries := [];
    }

    method Push(n: Node)
      modifies this
      ensures entries == old(entries) + [n]
    {
      entries := entries + [n];
    }
  }

  /** `find`: pushes `n`, then, for a directory, recurses into each child in
      the order the directory lists them. */
  method Find(n: Node, files: Collected)
    modifies files
    ensures files.entries == old(files.entries) + PreOrder(n)
    decreases n
  {
    files.Push(n);
    if n.Dir? {
      ghost var start := old(files.entries) + [n];
      var i := 0;
      while i < |n.children|
        invariant 0 <= i <= |n.children|
        invariant files.entries == start + PreOrderAll(n.children[..i])
      {
        Find(n.children[i], files);
        CollectedSnoc(start, n.children, i);
        i := i + 1;
      }
      assert n.children[..|n.children|] == n.children;
      assert start + PreOrderAll(n.children) == old(files.entries) + PreOrder(n);
    }
  }

  /** Collecting one more sibling extends the collection by its subtree. */
  lemma CollectedSnoc(start: seq<Node>, cs: seq<Node>, i: nat)
    requires i < |cs|
    ensures start + PreOrderAll(cs[..i]) + PreOrder(cs[i]) == start + PreOrderAll(cs[..i + 1])
  {
    assert cs[..i + 1][..i] == cs[..i];
  }

  /** `recursive_archive`: collects the tree, then appends an entry for each
      collected directory, then one for each other object. */
  method RecursiveArchive(archive: Archive, root: Node)
    modifies archive
    ensures archive.bytes == old(archive.bytes) + EntriesBytes(ArchiveOrder(root))
  {
    var found := new Collected();
    Find(root, found);
    var entries := found.entries;
    assert entries == PreOrder(root);
    AppendDirectories(archive, entries);
    AppendOthers(archive, entries);
    EntriesOfAppend(Dirs(entries), NonDirs(entries));
    AppendAssociates(old(archive.bytes), EntriesBytes(Dirs(entries)), EntriesBytes(NonDirs(entries)));
  }

  /** The first loop of `recursive_archive`: the directories, in order. */
  method AppendDirectories(archive: Archive, entries: seq<Node>)
    modifies archive
    ensures archive.bytes == old(archive.bytes) + EntriesBytes(Dirs(entries))
  {
    for i := 0 to |entries|
      invariant archive.bytes == old(archive.bytes) + EntriesBytes(Dirs(entries[..i]))
    {
      if entries[i].Dir? {
        AppendToArchive(archive, entries[i]);
        EntriesSnoc(old(archive.bytes), Dirs(entries[..i]), entries[i]);
      }
      FiltersSnoc(entries, i);
    }
    assert entries[..|entries|] == entries;
  }

  /** The second loop of `recursive_archive`: everything else, in order. */
  method AppendOthers(archive: Archive, entries: seq<Node>)
    modifies archive
    ensures archive.bytes == old(archive.bytes) + EntriesBytes(NonDirs(entries))
  {
    for i := 0 to |entries|
      invariant archive.bytes == old(archive.bytes) + EntriesBytes(NonDirs(entries[..i]))
    {
      if !entries[i].Dir? {
        AppendToArchive(archive, entries[i]);
        EntriesSnoc(old(archive.bytes), NonDirs(entries[..i]), entries[i]);
      }
      FiltersSnoc(entries, i);
    }
    assert entries[..|entries|] == entries;
  }

  lemma AppendAssociates(x: seq<u8>, y: seq<u8>, z: seq<u8>)
    ensures x + y + z == x + (y + z)
  {
  }

  /** Appending one more entry to a stream that holds the entries of `a`. */
  lemma EntriesSnoc(out: seq<u8>, a: seq<Node>, x: Node)
    ensures out + EntriesBytes(a) + EntryBytes(x) == out + EntriesBytes(a + [x])
  {
    assert (a + [x])[..|a|] == a;
    AppendAssociates(out, EntriesBytes(a), EntryBytes(x));
  }

  /** Extending a prefix by one node extends exactly one of the two groups. */
  lemma FiltersSnoc(s: seq<Node>, i: nat)
    requires i < |s|
    ensures s[i].Dir? ==> Dirs(s[..i + 1]) == Dirs(s[..i]) + [s[i]] && NonDirs(s[..i + 1]) == NonDirs(s[..i])
    ensures !s[i].Dir? ==> Dirs(s[..i + 1]) == Dirs(s[..i]) && NonDirs(s[..i + 1]) == NonDirs(s[..i]) + [s[i]]
  {
    assert s[..i + 1][..i] == s[..i];
    assert Dirs(s[..i]) + [] == Dirs(s[..i]);
    assert NonDirs(s[..i]) + [] == NonDirs(s[..i]);
  }

  /** Writing two lists of entries is writing their concatenation. */
  lemma EntriesOfAppend(a: seq<Node>, b: seq<Node>)
    ensures EntriesBytes(a + b) == EntriesBytes(a) + EntriesBytes(b)
  {
    ConcatOfAppend(EntryBytes, a, b);
  }

  lemma {:induction false} ConcatOfAppend(image: Node -> seq<u8>, a: seq<Node>, b: seq<Node>)
    ensures Concat(image, a + b) == Concat(image, a) + Concat(image, b)
    decreases |b|
  {
    if |b| > 0 {
      var c, init := a + b, b[..|b| - 1];
      assert c[..|c| - 1] == a + init;
      ConcatOfAppend(image, a, init);
    } else {
      assert a + b == a;
    }
  }

  /** The two filters distribute over concatenation. */
  lemma {:induction false} FiltersOfAppend(a: seq<Node>, b: seq<Node>)
    ensures Dirs(a + b) == Dirs(a) + Dirs(b)
    ensures NonDirs(a + b) == NonDirs(a) + NonDirs(b)
    decreases |b|
  {
    if |b| > 0 {
      var c, init := a + b, b[..|b| - 1];
      assert c[..|c| - 1] == a + init;
      FiltersOfAppend(a, init);
    } else {
      assert a + b == a;
    }
  }

  /** Between them the two filters keep every node exactly once. */
  lemma {:induction false} FiltersPartition(s: seq<Node>)
    ensures multiset(Dirs(s)) + multiset(NonDirs(s)) == multiset(s)
  {
    if |s| > 0 {
      FiltersPartition(s[..|s| - 1]);
      assert s == s[..|s| - 1] + [s[|s| - 1]];
    }
  }

  /** `Dirs` keeps only directories and `NonDirs` only other objects. */
  lemma {:induction false} FilterKinds(s: seq<Node>)
    ensures forall k | 0 <= k < |Dirs(s)| :: Dirs(s)[k].Dir?
    ensures forall k | 0 <= k < |NonDirs(s)| :: !NonDirs(s)[k].Dir?
  {
    if |s| > 0 {
      FilterKinds(s[..|s| - 1]);
    }
  }

  /** A list of directories passes `Dirs` whole and `NonDirs` not at all. */
  lemma {:induction false} FiltersOfDirs(s: seq<Node>)
    requires forall k | 0 <= k < |s| :: s[k].Dir?
    ensures Dirs(s) == s && NonDirs(s) == []
  {
    if |s| > 0 {
      FiltersOfDirs(s[..|s| - 1]);
      assert s == s[..|s| - 1] + [s[|s| - 1]];
    }
  }

  /** A list without directories passes `NonDirs` whole and `Dirs` not at all. */
  lemma {:induction false} FiltersOfNonDirs(s: seq<Node>)
    requires forall k | 0 <= k < |s| :: !s[k].Dir?
    ensures Dirs(s) == [] && NonDirs(s) == s
  {
    if |s| > 0 {
      FiltersOfNonDirs(s[..|s| - 1]);
      assert s == s[..|s| - 1] + [s[|s| - 1]];
    }
  }

  /** Every object `find` collects is archived exactly once. */
  lemma ArchiveIsPermutation(root: Node)
    ensures multiset(ArchiveOrder(root)) == multiset(PreOrder(root))
  {
    FiltersPartition(PreOrder(root));
  }

  /** The archive holds the collected directories first, then everything
      else: position `i` holds a directory exactly when `i` is below the
      number of directories. */
  lemma DirectoriesFirst(root: Node)
    ensures forall i | 0 <= i < |ArchiveOrder(root)| ::
      ArchiveOrder(root)[i].Dir? <==> i < |Dirs(PreOrder(root))|
  {
    FilterKinds(PreOrder(root));
  }

  /** Within each group the archive keeps the order of the walk. */
  lemma GroupsKeepWalkOrder(root: Node)
    ensures Dirs(ArchiveOrder(root)) == Dirs(PreOrder(root))
    ensures NonDirs(ArchiveOrder(root)) == NonDirs(PreOrder(root))
  {
    var p := PreOrder(root);
    FiltersOfAppend(Dirs(p), NonDirs(p));
    FilterKinds(p);
    FiltersOfDirs(Dirs(p));
    FiltersOfNonDirs(NonDirs(p));
    assert Dirs(p) + [] == Dirs(p);
    assert [] + NonDirs(p) == NonDirs(p);
  }

  /** The walk starts at the root, and so does the archive. */
  lemma RootFirst(root: Node)
    ensures PreOrder(root)[0] == root
    ensures |ArchiveOrder(root)| == |PreOrder(root)|
    ensures ArchiveOrder(root)[0] == root
  {
    var p := PreOrder(root);
    ArchiveIsPermutation(root);
    assert |multiset(ArchiveOrder(root))| == |multiset(p)|;
    if root.Dir? {
      FiltersOfAppend([root], p[1..]);
      assert p == [root] + p[1..];
      assert Dirs([root]) == [root];
    } else {
      assert p == [root];
      assert NonDirs([root]) == [root];
    }
  }

  /** The collections of two lists of siblings, one after the other. */
  lemma {:induction false} PreOrderAllOfAppend(a: seq<Node>, b: seq<Node>)
    ensures PreOrderAll(a + b) == PreOrderAll(a) + PreOrderAll(b)
    decreases |b|
  {
    if |b| > 0 {
      var c, init := a + b, b[..|b| - 1];
      assert c[..|c| - 1] == a + init;
      PreOrderAllOfAppend(a, init);
    } else {
      assert a + b == a;
    }
  }

  /** Each child's whole subtree follows its directory as one contiguous
      block, after the subtrees of the children listed before it. */
  lemma SubtreeFollowsParent(n: Node, k: nat)
    requires n.Dir? && k < |n.children|
    ensures 1 + |PreOrderAll(n.children[..k])| + |PreOrder(n.children[k])| <= |PreOrder(n)|
    ensures PreOrder(n)[1 + |PreOrderAll(n.children[..k])|..][..|PreOrder(n.children[k])|] == PreOrder(n.children[k])
  {
    var cs := n.children;
    var before, c := PreOrderAll(cs[..k]), PreOrder(cs[k]);
    PreOrderAllOfAppend(cs[..k + 1], cs[k + 1..]);
    assert cs[..k + 1] + cs[k + 1..] == cs;
    assert cs[..k + 1][..k] == cs[..k];
    assert PreOrderAll(cs[..k + 1]) == before + c;
    var after := PreOrderAll(cs[k + 1..]);
    assert PreOrder(n) == [n] + before + c + after;
    assert PreOrder(n)[1 + |before|..] == c + after;
  }
}

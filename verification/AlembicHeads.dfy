/** Alembic migration heads: finding them, and the generated revision that merges them
    (hyqs/pipeline/collision.py, hyqs/pipeline/remediation.py). */
module AlembicHeads {
  import opened PyValues
  import opened Sorting
  import opened Graphs

  /** What a migration file assigns to `down_revision`. */
  datatype Down = NoDown | One(id: string) | Many(ids: seq<string>, isTuple: bool)

  /** What `_parse_alembic_revision` reads off a file; an unreadable one has no revision. */
  datatype Migration = Migration(revision: Option<string>, down: Down)

  /** The Python files of one directory, by name. */
  type Versions = map<string, Migration>

  function Referenced(m: Migration): set<string> {
    match m.down
    case NoDown => {}
    case One(id) => {id}
    case Many(ids, _) => set id | id in ids
  }

  function Revisions(dir: Versions): set<string> {
    set name | name in dir && dir[name].revision.Some? :: dir[name].revision.value
  }

  function AllReferenced(dir: Versions): set<string> {
    set name, id | name in dir && dir[name].revision.Some? && id in Referenced(dir[name]) :: id
  }

  function Excluding(dir: Versions, exclude: Option<string>): Versions {
    if exclude.Some? then dir - {exclude.value} else dir
  }

  /** The revisions no other migration builds on. */
  function Heads(dir: Versions): set<string> { Revisions(dir) - AllReferenced(dir) }

  /** `dir` is None when there is no such directory. */
  method DiscoverAlembicHeads(dir: Option<Versions>, exclude: Option<string>) returns (heads: set<string>)
    ensures heads == if dir.Some? then Heads(Excluding(dir.value, exclude)) else {}
  {
    if dir.None? {
      return {};
    }
    var revisions: set<string>, referenced: set<string> := {}, {};
    var names := dir.value.Keys;
    ghost var done: set<string> := {};
    while names != {}
      invariant names + done == dir.value.Keys && names !! done
      invariant revisions == Revisions(Excluding(dir.value - names, exclude))
      invariant referenced == AllReferenced(Excluding(dir.value - names, exclude))
      decreases names
    {
      var name := Pick(names);
      ghost var before := Excluding(dir.value - names, exclude);
      names := names - {name};
      done := done + {name};
      ghost var after := Excluding(dir.value - names, exclude);
      var m := dir.value[name];
      if exclude == Some(name) {
        assert after == before;
        continue;
      }
      assert after == before[name := m];
      OneMoreFile(before, name, m);
      if m.revision.None? {
        continue;
      }
      revisions := revisions + {m.revision.value};
      referenced := referenced + Referenced(m);
    }
    assert dir.value - {} == dir.value;
    heads := revisions - referenced;
  }

  lemma OneMoreFile(dir: Versions, name: string, m: Migration)
    requires name !in dir
    ensures Revisions(dir[name := m]) == Revisions(dir) + (if m.revision.Some? then {m.revision.value} else {})
    ensures AllReferenced(dir[name := m]) == AllReferenced(dir) + (if m.revision.Some? then Referenced(m) else {})
  {
    var after := dir[name := m];
    assert forall n :: n in dir ==> n in after && after[n] == dir[n];
    forall id ensures id in Revisions(after) <==> id in Revisions(dir) || (m.revision == Some(id)) {
      if m.revision == Some(id) { assert after[name].revision == Some(id); }
      if id in Revisions(dir) {
        var n :| n in dir && dir[n].revision == Some(id);
        assert after[n].revision == Some(id);
      }
    }
    forall id
      ensures id in AllReferenced(after) <==> id in AllReferenced(dir) || (m.revision.Some? && id in Referenced(m))
    {
      if m.revision.Some? && id in Referenced(m) { assert name in after && after[name] == m; }
      if id in AllReferenced(dir) {
        var n :| n in dir && dir[n].revision.Some? && id in Referenced(dir[n]);
        assert n in after && after[n] == dir[n];
      }
    }
  }

  // ---- the generated merge revision ------------------------------------------------

  function Concatenated(parts: seq<string>): string {
    if parts == [] then "" else parts[0] + Concatenated(parts[1..])
  }

  /** `digest` stands for the first twelve hex digits of SHA-1; the rest of the file's text is
      fixed by the revision and its parents. */
  function GenerateMergeRevision(digest: string -> string, heads: seq<string>): (string, Migration) {
    var ordered := StableSort(StringLess, heads);
    var id := digest(Concatenated(ordered));
    (id + "_merge_heads.py", Migration(Some(id), Many(ordered, true)))
  }

  /** `set(down_revision) == heads`, for a tuple of at least two. */
  predicate IsMergeResolution(dir: Versions, name: string) {
    name in dir && dir[name].down.Many? && dir[name].down.isTuple && |dir[name].down.ids| >= 2
    && Referenced(dir[name]) == Heads(dir - {name})
  }

  method IsAlembicMergeResolution(isVersionsFile: string -> bool, path: string, dir: Option<Versions>, name: string)
    returns (ok: bool)
    ensures ok == (isVersionsFile(path) && dir.Some? && IsMergeResolution(dir.value, name))
  {
    if !isVersionsFile(path) || dir.None? || name !in dir.value {
      return false;
    }
    var down := dir.value[name].down;
    if !down.Many? || !down.isTuple || |down.ids| < 2 {
      return false;
    }
    var heads := DiscoverAlembicHeads(dir, Some(name));
    ok := Referenced(dir.value[name]) == heads;
  }

  /** The directory with the generated file in it. */
  function Merged(digest: string -> string, dir: Versions, heads: seq<string>): Versions {
    var (name, m) := GenerateMergeRevision(digest, heads);
    dir[name := m]
  }

  function MergeId(digest: string -> string, heads: seq<string>): string {
    digest(Concatenated(StableSort(StringLess, heads)))
  }

  function MergeName(digest: string -> string, heads: seq<string>): string {
    MergeId(digest, heads) + "_merge_heads.py"
  }

  ghost predicate Lists(heads: seq<string>, ids: set<string>) {
    (forall i, j :: 0 <= i < j < |heads| ==> heads[i] != heads[j]) && forall id :: id in heads <==> id in ids
  }

  lemma StringLessIsWeakOrder()
    ensures WeakOrder(StringLess)
  {
    forall x, y | StringLess(x, y) ensures !StringLess(y, x) { StringLessAsymmetric(x, y); }
    forall x, y, z | StringLess(x, z) ensures StringLess(x, y) || StringLess(y, z) {
      StringLessConnected(x, y);
      if StringLess(y, x) { StringLessTransitive(y, x, z); }
    }
  }

  lemma OrderedHeads(heads: seq<string>)
    ensures |StableSort(StringLess, heads)| == |heads|
    ensures multiset(StableSort(StringLess, heads)) == multiset(heads)
    ensures Sorted(StringLess, StableSort(StringLess, heads))
    ensures forall id :: id in StableSort(StringLess, heads) <==> id in heads
  {
    hide StringLess;
    StringLessIsWeakOrder();
    StableSortSorts(StringLess, heads);
    var s := StableSort(StringLess, heads);
    forall id ensures id in s <==> id in heads {
      assert id in s <==> id in multiset(s);
      assert id in heads <==> id in multiset(heads);
    }
  }

  /** Adding the generated file leaves the new revision as the only head exactly when its id is
      fresh: not a head, and not referenced by any migration. */
  lemma MergeIsTheOnlyHead(digest: string -> string, dir: Versions, heads: seq<string>)
    requires Lists(heads, Heads(dir)) && MergeName(digest, heads) !in dir
    ensures Heads(Merged(digest, dir, heads)) == {MergeId(digest, heads)} <==>
            MergeId(digest, heads) !in Heads(dir) && MergeId(digest, heads) !in AllReferenced(dir)
  {
    hide Revisions, AllReferenced, Referenced, StableSort;
    var (name, m) := GenerateMergeRevision(digest, heads);
    OrderedHeads(heads);
    OneMoreFile(dir, name, m);
    MergeReferencesHeads(digest, dir, heads);
  }

  lemma MergeReferencesHeads(digest: string -> string, dir: Versions, heads: seq<string>)
    requires Lists(heads, Heads(dir))
    ensures Referenced(GenerateMergeRevision(digest, heads).1) == Heads(dir)
  {
    hide StableSort;
    OrderedHeads(heads);
  }

  /** Two or more heads merged under a fresh id: the new revision is the only head, no head
      collision is left, and the file passes as a genuine merge. */
  lemma MergeResolves(digest: string -> string, dir: Versions, heads: seq<string>)
    requires Lists(heads, Heads(dir)) && |heads| >= 2 && MergeName(digest, heads) !in dir
    requires MergeId(digest, heads) !in Revisions(dir) && MergeId(digest, heads) !in AllReferenced(dir)
    ensures var after := Merged(digest, dir, heads);
            && Heads(after) == {MergeId(digest, heads)} && !Collides(after)
            && IsMergeResolution(after, MergeName(digest, heads))
  {
    MergeIsTheOnlyHead(digest, dir, heads);
    MergeReferencesHeads(digest, dir, heads);
    OrderedHeads(heads);
    assert Merged(digest, dir, heads) - {MergeName(digest, heads)} == dir;
  }

  lemma FirstIsLeast<T(!new)>(less: (T, T) -> bool, s: seq<T>, t: seq<T>)
    requires StrictOrder(less) && Sorted(less, t) && multiset(s) == multiset(t) && s != [] && t != []
    ensures !less(s[0], t[0])
  {
    assert s[0] in multiset(t);
    var i :| 0 <= i < |t| && t[i] == s[0];
    assert !less(s[0], s[0]);
  }

  lemma TailsAgree<T>(s: seq<T>, t: seq<T>)
    requires s != [] && t != [] && s[0] == t[0] && multiset(s) == multiset(t)
    ensures multiset(s[1..]) == multiset(t[1..])
  {
    assert s == [s[0]] + s[1..] && t == [t[0]] + t[1..];
    assert multiset(s[1..]) == multiset(s) - multiset{s[0]};
    assert multiset(t[1..]) == multiset(t) - multiset{t[0]};
  }

  lemma {:induction false} SortedTwice<T(!new)>(less: (T, T) -> bool, s: seq<T>, t: seq<T>)
    requires StrictOrder(less) && Sorted(less, s) && Sorted(less, t) && multiset(s) == multiset(t)
    ensures s == t
  {
    assert |s| == |multiset(s)| == |multiset(t)| == |t|;
    if s != [] {
      FirstIsLeast(less, s, t);
      FirstIsLeast(less, t, s);
      TailsAgree(s, t);
      SortedTwice(less, s[1..], t[1..]);
      assert s == [s[0]] + s[1..] && t == [t[0]] + t[1..];
    }
  }

  /** The same heads give the same file, in whatever order they come. */
  lemma OrderDoesNotMatter(digest: string -> string, one: seq<string>, two: seq<string>)
    requires multiset(one) == multiset(two)
    ensures GenerateMergeRevision(digest, one) == GenerateMergeRevision(digest, two)
  {
    hide StringLess;
    OrderedHeads(one);
    OrderedHeads(two);
    StringLessIsStrictOrder();
    SortedTwice(StringLess, StableSort(StringLess, one), StableSort(StringLess, two));
  }

  // ---- the graph of revisions ------------------------------------------------------------

  function Edges(dir: Versions): set<(string, string)> {
    set name, id | name in dir && dir[name].revision.Some? && id in Referenced(dir[name]) ::
      (dir[name].revision.value, id)
  }

  /** Above every revision of an acyclic graph there is a head. */
  lemma {:induction false} HeadAbove(dir: Versions, r: string) returns (h: string)
    requires Acyclic(Edges(dir)) && r in Revisions(dir)
    ensures h in Heads(dir) && (h == r || Reaches(Edges(dir), h, r))
    decreases Above(Edges(dir), r)
  {
    var g := Edges(dir);
    if r in Heads(dir) {
      h := r;
    } else {
      var name :| name in dir && dir[name].revision.Some? && r in Referenced(dir[name]);
      var y := dir[name].revision.value;
      assert (y, r) in g;
      EdgeReaches(g, y, r);
      AboveShrinks(g, y, r);
      h := HeadAbove(dir, y);
      if h != y { ReachesTransitive(g, h, y, r); }
    }
  }

  lemma MergedEdges(digest: string -> string, dir: Versions, heads: seq<string>)
    requires Lists(heads, Heads(dir)) && MergeName(digest, heads) !in dir
    ensures Edges(Merged(digest, dir, heads)) == Edges(dir) + set h | h in heads :: (MergeId(digest, heads), h)
  {
    hide StableSort;
    OrderedHeads(heads);
    var (name, m) := GenerateMergeRevision(digest, heads);
    var after := Merged(digest, dir, heads);
    forall e ensures e in Edges(after) <==> e in Edges(dir) || (e.0 == MergeId(digest, heads) && e.1 in heads) {
      if e in Edges(dir) {
        var n, id :| n in dir && dir[n].revision.Some? && id in Referenced(dir[n]) && e == (dir[n].revision.value, id);
        assert n in after && after[n] == dir[n];
      }
      if e.0 == MergeId(digest, heads) && e.1 in heads {
        assert name in after && after[name] == m && e.1 in Referenced(m);
        assert e == (m.revision.value, e.1);
      }
    }
  }

  /** From the merge revision every earlier one can be reached, and the history stays acyclic. */
  lemma MergeReachesEverything(digest: string -> string, dir: Versions, heads: seq<string>)
    requires Acyclic(Edges(dir)) && Lists(heads, Heads(dir)) && MergeName(digest, heads) !in dir
    requires MergeId(digest, heads) !in Revisions(dir) && MergeId(digest, heads) !in AllReferenced(dir)
    ensures var after := Merged(digest, dir, heads);
            && Acyclic(Edges(after))
            && forall r :: r in Revisions(dir) ==> Reaches(Edges(after), MergeId(digest, heads), r)
  {
    var id := MergeId(digest, heads);
    var g, after := Edges(dir), Edges(Merged(digest, dir, heads));
    MergedEdges(digest, dir, heads);
    forall r | r in Revisions(dir) ensures Reaches(after, id, r) {
      var h := HeadAbove(dir, r);
      EdgeReaches(after, id, h);
      if h != r {
        ReachesMonotone(g, after, h, r);
        ReachesTransitive(after, id, h, r);
      }
    }
    SourceKeepsAcyclic(g, id, ElementsOf(heads));
    assert after == g + FanOut(id, ElementsOf(heads));
  }

  function ElementsOf(s: seq<string>): set<string> { set x | x in s }

  function FanOut(id: string, targets: set<string>): set<(string, string)> { set t | t in targets :: (id, t) }

  /** A new node that nothing points to closes no cycle. */
  lemma SourceKeepsAcyclic(g: set<(string, string)>, id: string, targets: set<string>)
    requires Acyclic(g) && id !in targets && forall e :: e in g ==> e.1 != id
    ensures Acyclic(g + FanOut(id, targets))
  {
    var h := g + FanOut(id, targets);
    forall u | Reaches(h, u, u) ensures false {
      var p :| IsPath(h, p, u, u);
      forall i | 0 <= i < |p| - 1 ensures (p[i], p[i + 1]) in g {
        SourceHasNoEntry(h, g, id, targets, p, u, i);
      }
      assert IsPath(g, p, u, u);
      assert Reaches(g, u, u);
    }
  }

  lemma SourceHasNoEntry(h: set<(string, string)>, g: set<(string, string)>, id: string, targets: set<string>,
                         p: seq<string>, u: string, i: nat)
    requires h == g + FanOut(id, targets) && id !in targets && (forall e :: e in g ==> e.1 != id)
    requires IsPath(h, p, u, u) && i < |p| - 1
    ensures (p[i], p[i + 1]) in g
  {
    assert (p[i], p[i + 1]) in h;
    var before := if i == 0 then |p| - 2 else i - 1;
    assert (p[before], p[before + 1]) in h && p[before + 1] == p[i];
  }

  // ---- collisions of a diff -------------------------------------------------------------

  predicate Collides(dir: Versions) { |Heads(dir)| > 1 }

  datatype Collision = Collision(dir: string, heads: set<string>, files: seq<string>)

  function HeadFiles(dir: Versions): set<string> {
    set name | name in dir && dir[name].revision.Some? && dir[name].revision.value in Heads(dir)
  }

  ghost predicate IsCollision(tree: map<string, Versions>, c: Collision) {
    && c.dir in tree && Collides(tree[c.dir]) && c.heads == Heads(tree[c.dir])
    && StrictlySorted(StringLess, c.files) && forall name :: name in c.files <==> name in HeadFiles(tree[c.dir])
  }

  /** One message per touched versions directory with more than one head, in directory order.
      `touched` holds the directories of the changed migration files. */
  method CheckAlembicHeadCollisions(tree: map<string, Versions>, touched: set<string>)
    returns (messages: seq<Collision>)
    ensures forall c :: c in messages ==> c.dir in touched && IsCollision(tree, c)
    ensures forall d :: d in touched && d in tree && Collides(tree[d]) ==> exists c :: c in messages && c.dir == d
    ensures forall i, j :: 0 <= i < j < |messages| ==> StringLess(messages[i].dir, messages[j].dir)
  {
    hide StringLess, Heads, HeadFiles;
    StringLessIsStrictOrder();
    var dirs := SortedOf(touched, StringLess);
    messages := [];
    for i := 0 to |dirs|
      invariant forall c :: c in messages ==> c.dir in dirs[..i] && IsCollision(tree, c)
      invariant forall d :: d in dirs[..i] && d in tree && Collides(tree[d]) ==> exists c :: c in messages && c.dir == d
      invariant forall a, b :: 0 <= a < b < |messages| ==> StringLess(messages[a].dir, messages[b].dir)
    {
      assert dirs[..i + 1] == dirs[..i] + [dirs[i]];
      var heads := DiscoverAlembicHeads(if dirs[i] in tree then Some(tree[dirs[i]]) else None, None);
      if |heads| <= 1 {
        continue;
      }
      var files := SortedOf(HeadFiles(tree[dirs[i]]), StringLess);
      assert forall d :: d in dirs[..i] ==> StringLess(d, dirs[i]);
      messages := messages + [Collision(dirs[i], heads, files)];
    }
    assert dirs[..|dirs|] == dirs;
  }

  // ---- heads, told from the files ---------------------------------------------------------

  /** A migration builds on r. */
  ghost predicate BuildsOn(m: Migration, r: string) {
    m.down == One(r) || exists ids, isTuple :: m.down == Many(ids, isTuple) && r in ids
  }

  ghost predicate IsFile(dir: Versions, exclude: Option<string>, name: string) {
    name in dir && exclude != Some(name)
  }

  /** A revision is a head exactly when some file has it and no file with a revision builds on it,
      the excluded file aside. */
  lemma HeadIffNothingBuildsOnIt(dir: Versions, exclude: Option<string>, r: string)
    ensures r in Heads(Excluding(dir, exclude)) <==>
            && (exists n :: IsFile(dir, exclude, n) && dir[n].revision == Some(r))
            && forall n :: IsFile(dir, exclude, n) && dir[n].revision.Some? ==> !BuildsOn(dir[n], r)
  {
    var kept := Excluding(dir, exclude);
    assert forall n :: n in kept <==> IsFile(dir, exclude, n);
    assert forall n :: n in kept ==> kept[n] == dir[n];
    forall n | n in kept ensures r in Referenced(kept[n]) <==> BuildsOn(kept[n], r) {
      ReferencedIs(kept[n], r);
    }
    assert r in Revisions(kept) <==> exists n :: n in kept && kept[n].revision == Some(r);
  }

  lemma ReferencedIs(m: Migration, r: string)
    ensures r in Referenced(m) <==> BuildsOn(m, r)
  {
    if m.down.Many? { assert m.down == Many(m.down.ids, m.down.isTuple); }
  }

  /** The files of a linear history, each building on the one before. */
  ghost predicate IsChain(dir: Versions, names: seq<string>, revisions: seq<string>) {
    && |names| == |revisions| > 0
    && (forall i, j :: 0 <= i < j < |names| ==> names[i] != names[j] && revisions[i] != revisions[j])
    && (forall n :: n in dir <==> n in names)
    && (forall i :: 0 <= i < |names| ==> dir[names[i]].revision == Some(revisions[i]))
    && forall i :: 0 <= i < |names| ==> dir[names[i]].down == if i == 0 then NoDown else One(revisions[i - 1])
  }

  lemma ChainAt(dir: Versions, names: seq<string>, revisions: seq<string>, i: nat)
    requires IsChain(dir, names, revisions) && i < |names|
    ensures IsFile(dir, None, names[i]) && dir[names[i]].revision == Some(revisions[i])
    ensures forall r :: BuildsOn(dir[names[i]], r) <==> i > 0 && r == revisions[i - 1]
  {
    assert names[i] in names;
  }

  lemma ChainIndex(dir: Versions, names: seq<string>, revisions: seq<string>, n: string) returns (i: nat)
    requires IsChain(dir, names, revisions) && n in dir
    ensures i < |names| && names[i] == n
  {
    i :| i < |names| && names[i] == n;
  }

  /** A linear history has one head, its last revision. */
  lemma ChainHasOneHead(dir: Versions, names: seq<string>, revisions: seq<string>)
    requires IsChain(dir, names, revisions)
    ensures Heads(dir) == {revisions[|revisions| - 1]} && !Collides(dir)
  {
    var last := revisions[|revisions| - 1];
    forall r ensures r in Heads(dir) <==> r == last {
      ChainHead(dir, names, revisions, r);
    }
    assert Heads(dir) == {last};
  }

  lemma ChainHead(dir: Versions, names: seq<string>, revisions: seq<string>, r: string)
    requires IsChain(dir, names, revisions)
    ensures r in Heads(dir) <==> r == revisions[|revisions| - 1]
  {
    hide Heads, IsChain, BuildsOn;
    ChainHasFiles(dir, names, revisions);
    HeadIffNothingBuildsOnIt(dir, None, r);
    if r == revisions[|revisions| - 1] {
      ChainAt(dir, names, revisions, |names| - 1);
      forall n | IsFile(dir, None, n) ensures !BuildsOn(dir[n], r) {
        var i := ChainIndex(dir, names, revisions, n);
        ChainAt(dir, names, revisions, i);
      }
    } else if n :| IsFile(dir, None, n) && dir[n].revision == Some(r) {
      var i := ChainIndex(dir, names, revisions, n);
      ChainAt(dir, names, revisions, i);
      ChainAt(dir, names, revisions, i + 1);
    }
  }

  lemma ChainHasFiles(dir: Versions, names: seq<string>, revisions: seq<string>)
    requires IsChain(dir, names, revisions)
    ensures |names| == |revisions| > 0 && Excluding(dir, None) == dir
    ensures forall i, j :: 0 <= i < j < |names| ==> revisions[i] != revisions[j]
  {
  }

  /** Two files that build on one parent, as two jobs leave them: both are heads. */
  lemma ForkCollides(dir: Versions, parent: string, one: string, two: string)
    requires one != two && parent != one && parent != two
    requires dir == map["p.py" := Migration(Some(parent), NoDown), "x.py" := Migration(Some(one), One(parent)),
                        "y.py" := Migration(Some(two), One(parent))]
    ensures Heads(dir) == {one, two} && Collides(dir)
  {
    assert Excluding(dir, None) == dir;
    assert IsFile(dir, None, "x.py") && IsFile(dir, None, "y.py");
    forall r ensures r in Heads(dir) <==> r == one || r == two {
      HeadIffNothingBuildsOnIt(dir, None, r);
    }
    assert Heads(dir) == {one, two};
  }

  /** The merge of two heads, in whatever order they are given: its id digests the two in text order,
      its file is named after the id and its parents are the two, as a tuple. */
  lemma MergeOfTwo(digest: string -> string, a: string, b: string)
    requires StringLess(a, b)
    ensures GenerateMergeRevision(digest, [b, a]) ==
            (digest(a + b) + "_merge_heads.py", Migration(Some(digest(a + b)), Many([a, b], true)))
    ensures GenerateMergeRevision(digest, [a, b]) == GenerateMergeRevision(digest, [b, a])
  {
    hide StringLess, StableSort, Concatenated;
    assert multiset([a, b]) == multiset([b, a]);
    OrderDoesNotMatter(digest, [a, b], [b, a]);
    TwoInOrder(a, b);
    ConcatenatedTwo(a, b);
  }

  lemma TwoInOrder(a: string, b: string)
    requires StringLess(a, b)
    ensures StableSort(StringLess, [b, a]) == [a, b]
  {
    hide StringLess, StableSort;
    OrderedHeads([b, a]);
    StringLessIsStrictOrder();
    var s := StableSort(StringLess, [b, a]);
    assert multiset(s) == multiset([a, b]);
    SortedTwice(StringLess, s, [a, b]);
  }

  lemma ConcatenatedTwo(a: string, b: string)
    ensures Concatenated([a, b]) == a + b
  {
    assert [a, b][1..] == [b] && [b][1..] == [];
    assert Concatenated([b]) == b + Concatenated([]) == b;
  }

  /** A file merges all other heads exactly when it names at least two parents in a tuple, and these are
      the revisions nothing builds on once it is set aside. */
  lemma MergeFileIff(dir: Versions, name: string)
    ensures IsMergeResolution(dir, name) <==>
            exists ids ::
              && name in dir && dir[name].down == Many(ids, true) && |ids| >= 2
              && forall r :: r in ids <==> r in Heads(Excluding(dir, Some(name)))
  {
    if name in dir && dir[name].down.Many? {
      var ids := dir[name].down.ids;
      assert forall r :: r in Referenced(dir[name]) <==> r in ids;
      assert dir[name].down == Many(ids, dir[name].down.isTuple);
    }
  }

  /** A file's revision is one on which no file of the directory builds. */
  ghost predicate IsHeadFile(dir: Versions, name: string) {
    && name in dir && dir[name].revision.Some?
    && forall n :: n in dir && dir[n].revision.Some? ==> !BuildsOn(dir[n], dir[name].revision.value)
  }

  /** A collision is reported of a directory with two heads or more: with the heads, and the names of
      the files that have them, in order. */
  lemma CollisionIff(tree: map<string, Versions>, c: Collision)
    ensures IsCollision(tree, c) <==>
            && c.dir in tree
            && (exists r, s :: r in c.heads && s in c.heads && r != s)
            && (forall r :: r in c.heads <==>
                  exists n :: IsHeadFile(tree[c.dir], n) && tree[c.dir][n].revision == Some(r))
            && (forall n :: n in c.files <==> IsHeadFile(tree[c.dir], n))
            && InTextOrder(c.files)
  {
    if c.dir in tree {
      var dir := tree[c.dir];
      HeadsAreOfFiles(dir);
      hide Heads, HeadFiles, IsHeadFile, InTextOrder, StrictlySorted;
      TwoOrMore(c.heads);
      TextOrderIff(c.files);
      assert c.heads == Heads(dir) <==> forall r :: r in c.heads <==> r in Heads(dir);
    }
  }

  ghost predicate InTextOrder(texts: seq<string>) {
    forall i, j :: 0 <= i < j < |texts| ==> ComesFirst(texts[i], texts[j])
  }

  lemma TextOrderIff(texts: seq<string>)
    ensures StrictlySorted(StringLess, texts) <==> InTextOrder(texts)
  {
    hide StringLess, ComesFirst;
    forall i, j | 0 <= i < j < |texts| ensures StringLess(texts[i], texts[j]) <==> ComesFirst(texts[i], texts[j]) {
      StringLessIff(texts[i], texts[j]);
    }
  }

  lemma HeadsAreOfFiles(dir: Versions)
    ensures forall r :: r in Heads(dir) <==> exists n :: IsHeadFile(dir, n) && dir[n].revision == Some(r)
    ensures forall n :: n in HeadFiles(dir) <==> IsHeadFile(dir, n)
  {
    hide Heads;
    assert Excluding(dir, None) == dir;
    forall r ensures r in Heads(dir) <==>
                       (exists n :: IsFile(dir, None, n) && dir[n].revision == Some(r)) &&
                       forall n :: IsFile(dir, None, n) && dir[n].revision.Some? ==> !BuildsOn(dir[n], r)
    {
      HeadIffNothingBuildsOnIt(dir, None, r);
    }
    hide BuildsOn;
    assert forall n :: n in dir <==> IsFile(dir, None, n);
  }

  lemma TwoOrMore<T>(s: set<T>)
    ensures |s| > 1 <==> exists x, y :: x in s && y in s && x != y
  {
    if |s| > 1 {
      var x :| x in s;
      assert s == {x} + (s - {x});
      var y :| y in s - {x};
    }
    if x, y :| x in s && y in s && x != y {
      assert s == {x, y} + (s - {x, y});
    }
  }
}

/** The store's internal iterator: every layer as one child of a merging iterator (db/db_impl, Version::AddIterators). */
module InternalIterators {
  import opened Common
  import opened DbFormat
  import opened VersionSet
  import opened CompactionWork
  import opened VersionChanges
  import opened DbRun
  import opened Merger

  /** No internal key of one part occurs in the other. */
  ghost predicate KeysApart(a: set<Entry>, b: set<Entry>) {
    forall e, f :: e in a && f in b ==> Compare(e.key, f.key) != 0
  }

  /** Strictly newer entries per user key have other internal keys. */
  lemma NewerAreApart(a: set<Entry>, b: set<Entry>)
    requires NewerThan(a, b) || NewerThan(b, a)
    ensures KeysApart(a, b)
  {
  }

  lemma AddChild(children: seq<seq<Entry>>, child: seq<Entry>)
    requires Mergeable(children) && Sorted(child) && KeysApart(Union(children), Contents(child))
    ensures Mergeable(children + [child]) && Union(children + [child]) == Union(children) + Contents(child)
  {
    var all: seq<seq<Entry>> := children + [child];
    hide Sorted;
    forall c: nat, d: nat, i: nat, j: nat | 0 <= c < d < |all| && 0 <= i < |all[c]| && 0 <= j < |all[d]|
      ensures Compare(all[c][i].key, all[d][j].key) != 0
    {
      if d == |children| {
        InUnion(children, c, i);
      }
    }
    assert all[|children|] == child;
    assert forall c :: c in children ==> c in all;
  }

  /** The entries of the first levels of a version. */
  function UpTo(v: Version, n: nat): set<Entry> {
    set l, e | 0 <= l < |v| && l < n && e in LevelContents(v[l]) :: e
  }

  lemma UpToStep(v: Version, n: nat)
    requires n < |v|
    ensures UpTo(v, n + 1) == UpTo(v, n) + LevelContents(v[n])
  {
  }

  lemma LevelIsApart(v: Version, n: nat)
    requires LevelsOrdered(v) && n < |v|
    ensures KeysApart(UpTo(v, n), LevelContents(v[n]))
  {
    forall e, f | e in UpTo(v, n) && f in LevelContents(v[n])
      ensures Compare(e.key, f.key) != 0
    {
      var l :| 0 <= l < |v| && l < n && e in LevelContents(v[l]);
      NewerAreApart(LevelContents(v[l]), LevelContents(v[n]));
    }
  }

  lemma FileIsApart(files: seq<FileMeta>, i: nat)
    requires LevelZeroOrder(files) && i < |files| && forall j :: 0 <= j < i ==> files[j] != files[i]
    ensures KeysApart(LevelContents(files[..i]), Contents(files[i].entries))
  {
    forall e, f | e in LevelContents(files[..i]) && f in files[i].entries
      ensures Compare(e.key, f.key) != 0
    {
      var g :| g in files[..i] && e in g.entries;
      NewerAreApart(Contents(g.entries), Contents(files[i].entries));
    }
  }

  lemma LevelContentsStep(files: seq<FileMeta>, i: nat)
    requires i < |files|
    ensures LevelContents(files[..i + 1]) == LevelContents(files[..i]) + Contents(files[i].entries)
  {
    PrefixStep(files, i);
    assert forall f :: f in files[..i] + [files[i]] <==> f in files[..i] || f == files[i];
  }

  /** The layers of a store never share an internal key. */
  lemma StoreLayersApart(s: Store)
    requires Invariant(s)
    ensures Sorted(s.mem) && Sorted(ImmEntries(s)) && WellFormed(s.version)
    ensures KeysApart(Contents(s.mem), Contents(ImmEntries(s)))
    ensures KeysApart(Contents(s.mem) + Contents(ImmEntries(s)), VersionContents(s.version))
    ensures forall i, j :: 0 <= i < j < |s.version[0]| ==> s.version[0][i] != s.version[0][j]
  {
    NewerAreApart(Contents(s.mem), Contents(ImmEntries(s)));
    NewerAreApart(Contents(s.mem), VersionContents(s.version));
    NewerAreApart(Contents(ImmEntries(s)), VersionContents(s.version));
  }

  lemma WellFormedParts(v: Version)
    requires WellFormed(v)
    ensures |v| == NUM_LEVELS && LevelsOrdered(v) && LevelZeroOrder(v[0])
    ensures forall l :: 0 <= l < |v| ==> ValidFiles(v[l]) && LevelContents(v[l]) <= VersionContents(v)
    ensures forall l :: 0 < l < |v| ==> Disjoint(v[l])
    ensures UpTo(v, 0) == {} && UpTo(v, |v|) == VersionContents(v)
  {
  }

  lemma WholeLevelZero(files: seq<FileMeta>)
    ensures LevelContents(files[..0]) == {} && LevelContents(files[..|files|]) == LevelContents(files)
  {
    assert files[..|files|] == files;
  }

  /** The children of NewInternalIterator: memtables, level-0 files, then one concatenation per deeper level. */
  method AddIterators(s: Store) returns (children: seq<seq<Entry>>)
    requires Invariant(s)
    ensures Mergeable(children) && Union(children) == StoreContents(s)
  {
    hide Mergeable, Union, Invariant, WellFormed, VersionContents, KeysApart, Sorted, LevelsOrdered, LevelZeroOrder, LevelContents;
    hide UpTo, Disjoint, ValidFiles;
    StoreLayersApart(s);
    WellFormedParts(s.version);
    ghost var memory := Contents(s.mem) + Contents(ImmEntries(s));
    children := MemoryChildren(s.mem, s.imm);
    var files := s.version[0];
    WholeLevelZero(files);
    UpToStep(s.version, 0);
    for i := 0 to |files|
      invariant Mergeable(children) && Union(children) == memory + LevelContents(files[..i])
    {
      LevelContentsStep(files, i);
      LevelContentsStepUp(files, i);
      FileIsApart(files, i);
      ApartFromFile(memory, LevelContents(files[..i]), Contents(files[i].entries), VersionContents(s.version));
      ValidIsSorted(files, i);
      AddChild(children, files[i].entries);
      children := children + [files[i].entries];
    }
    for level := 1 to NUM_LEVELS
      invariant Mergeable(children) && Union(children) == memory + UpTo(s.version, level)
    {
      UpToStep(s.version, level);
      if s.version[level] != [] {
        LevelIsApart(s.version, level);
        ApartFromFile(memory, UpTo(s.version, level), LevelContents(s.version[level]), VersionContents(s.version));
        ConcatContents(s.version[level]);
        ConcatIsSorted(s.version[level]);
        AddChild(children, Concat(s.version[level]));
        children := children + [Concat(s.version[level])];
      } else {
        assert LevelContents(s.version[level]) == {} by { WholeLevelZero([]); }
      }
    }
  }

  lemma LevelContentsStepUp(files: seq<FileMeta>, i: nat)
    requires i < |files|
    ensures Contents(files[i].entries) <= LevelContents(files)
  {
    assert files[i] in files;
  }

  lemma ApartFromFile(memory: set<Entry>, earlier: set<Entry>, file: set<Entry>, disk: set<Entry>)
    requires KeysApart(memory, disk) && KeysApart(earlier, file) && file <= disk
    ensures KeysApart(memory + earlier, file)
  {
  }

  lemma ValidIsSorted(files: seq<FileMeta>, i: nat)
    requires ValidFiles(files) && i < |files|
    ensures Sorted(files[i].entries)
  {
    assert files[i].Valid();
  }

  method MemoryChildren(mem: seq<Entry>, imm: Option<seq<Entry>>) returns (children: seq<seq<Entry>>)
    requires Sorted(mem) && (imm.Some? ==> Sorted(imm.value) && KeysApart(Contents(mem), Contents(imm.value)))
    ensures Mergeable(children) && Union(children) == Contents(mem) + if imm.Some? then Contents(imm.value) else {}
  {
    children := [mem];
    assert Union(children) == Contents(mem) by { assert children[0] == mem; }
    if imm.Some? {
      AddChild(children, imm.value);
      children := children + [imm.value];
    }
  }

  /** Finitely many entries with distinct keys can be listed in order. */
  lemma {:induction false} SortedListing(all: set<Entry>) returns (s: seq<Entry>)
    requires UniqueKeys(all)
    ensures Sorted(s) && Contents(s) == all
  {
    hide Sorted, AddEntry;
    if all == {} {
      s := [];
      assert Sorted([]) by { EmptyIsSorted(); }
    } else {
      var e :| e in all;
      var rest := SortedListing(all - {e});
      forall d | d in rest && d.key.user == e.key.user
        ensures d.key.sequence != e.key.sequence
      {
        assert d in Contents(rest);
      }
      AddEntryIs(rest, e);
      s := AddEntry(rest, e);
    }
  }

  lemma EmptyIsSorted()
    ensures Sorted([])
  {
  }
}

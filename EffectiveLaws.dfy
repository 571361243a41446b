/** What the change extraction guarantees: which files and keys can appear
    in its result, how entries of one file combine, and what other files and
    other change kinds cannot influence. */
module EffectiveLaws {
  import opened Outcomes
  import opened JavaText
  import opened Translatable
  import opened DiffLines
  import opened EffectiveChanges

  // ---------------------------------------------------------------------------
  // The path filter
  // ---------------------------------------------------------------------------

  /** The filter keeps exactly the entries with a translatable path. */
  lemma {:induction false} ChangesKeepsTranslatable(entries: seq<DiffEntry>, e: DiffEntry)
    ensures e in Changes(entries) <==> e in entries && IsTranslatable(e.newPath)
  {
    if entries != [] {
      var init := entries[..|entries| - 1];
      ChangesKeepsTranslatable(init, e);
      assert entries == init + [entries[|entries| - 1]];
    }
  }

  /** An entry with an untranslatable path changes nothing in the result. */
  lemma UntranslatableEntryIgnored(entries: seq<DiffEntry>, e: DiffEntry)
    requires !IsTranslatable(e.newPath)
    ensures EffectiveChangesOf(entries + [e]) == EffectiveChangesOf(entries)
  {
    assert (entries + [e])[..|entries|] == entries;
  }

  /** The French bundle of a module never reaches the result, whatever its
      diff holds. */
  lemma FrenchBundleIgnored(entries: seq<DiffEntry>, kind: ChangeKind, lines: seq<string>)
    ensures EffectiveChangesOf(entries + [DiffEntry("module/src/main/resources/messages_fr.properties", kind, lines)])
         == EffectiveChangesOf(entries)
  {
    FrenchBundleRejected();
    UntranslatableEntryIgnored(entries, DiffEntry("module/src/main/resources/messages_fr.properties", kind, lines));
  }

  // ---------------------------------------------------------------------------
  // Accumulation
  // ---------------------------------------------------------------------------

  /** The bundle of one side of a slot. */
  function Bundle(fp: FilePatch, side: Polarity): Option<Props> {
    if side.Addition? then fp.added else fp.removed
  }

  /** Entry `e` feeds the `side` bundle of `path`: ADD feeds the additions,
      DELETE the deletions, MODIFY both. */
  predicate Feeds(e: DiffEntry, path: string, side: Polarity) {
    && e.newPath == path
    && (e.kind.Modify? || (side.Addition? && e.kind.Add?) || (side.Deletion? && e.kind.Delete?))
  }

  /** A successful fold had a successful fold of every prefix before it. */
  lemma AccumulateInit(entries: seq<DiffEntry>)
    requires entries != []
    requires Accumulate(entries).Success?
    ensures Accumulate(entries[..|entries| - 1]).Success?
    ensures Record(Accumulate(entries[..|entries| - 1]).value, entries[|entries| - 1]) == Accumulate(entries)
  {
  }

  /** How a successful `Record` changes one path's slot. */
  lemma RecordSlot(patch: Patch, e: DiffEntry, path: string)
    requires Record(patch, e).Success?
    ensures Step(Slot(patch, e.newPath), e).Success?
    ensures Slot(Record(patch, e).value, path)
         == if e.newPath == path then Step(Slot(patch, path), e).value else Slot(patch, path)
    ensures path in Record(patch, e).value <==> path in patch || (e.newPath == path && !e.kind.Rename? && !e.kind.Copy?)
  {
  }

  /** A bundle exists exactly when some entry fed it: ADD only creates the
      ADD bundle, DELETE only the DELETE bundle, MODIFY both, and RENAME or
      COPY neither. */
  lemma {:induction false} AccumulateBundles(entries: seq<DiffEntry>, path: string, side: Polarity)
    requires Accumulate(entries).Success?
    ensures Bundle(Slot(Accumulate(entries).value, path), side).Some?
        <==> exists i :: 0 <= i < |entries| && Feeds(entries[i], path, side)
  {
    if entries != [] {
      var init := entries[..|entries| - 1];
      var e := entries[|entries| - 1];
      AccumulateInit(entries);
      AccumulateBundles(init, path, side);
      RecordSlot(Accumulate(init).value, e, path);
      if exists i :: 0 <= i < |entries| && Feeds(entries[i], path, side) {
        var i :| 0 <= i < |entries| && Feeds(entries[i], path, side);
        if i < |init| {
          assert Feeds(init[i], path, side);
        }
      }
      if exists i :: 0 <= i < |init| && Feeds(init[i], path, side) {
        var i :| 0 <= i < |init| && Feeds(init[i], path, side);
        assert Feeds(entries[i], path, side);
      }
    }
  }

  /** A path has a slot exactly when some ADD, DELETE or MODIFY entry names
      it. */
  lemma {:induction false} AccumulatePaths(entries: seq<DiffEntry>, path: string)
    requires Accumulate(entries).Success?
    ensures path in Accumulate(entries).value
        <==> exists i :: 0 <= i < |entries| && entries[i].newPath == path && !entries[i].kind.Rename? && !entries[i].kind.Copy?
  {
    if entries != [] {
      var init := entries[..|entries| - 1];
      var e := entries[|entries| - 1];
      AccumulateInit(entries);
      AccumulatePaths(init, path);
      RecordSlot(Accumulate(init).value, e, path);
      if exists i :: 0 <= i < |entries| && entries[i].newPath == path && !entries[i].kind.Rename? && !entries[i].kind.Copy? {
        var i :| 0 <= i < |entries| && entries[i].newPath == path && !entries[i].kind.Rename? && !entries[i].kind.Copy?;
        if i < |init| {
          assert init[i] == entries[i];
        }
      }
      if exists i :: 0 <= i < |init| && init[i].newPath == path && !init[i].kind.Rename? && !init[i].kind.Copy? {
        var i :| 0 <= i < |init| && init[i].newPath == path && !init[i].kind.Rename? && !init[i].kind.Copy?;
        assert entries[i] == init[i];
      }
    }
  }

  /** `putAll`: the values of the last entry that feeds a bundle overwrite the
      earlier ones for every key it extracts. */
  lemma LastEntryOverwrites(entries: seq<DiffEntry>, side: Polarity, k: string)
    requires entries != [] && Accumulate(entries).Success?
    requires Feeds(entries[|entries| - 1], entries[|entries| - 1].newPath, side)
    requires Extract(entries[|entries| - 1].lines, side).Success?
    requires k in Extract(entries[|entries| - 1].lines, side).value
    ensures Bundle(Slot(Accumulate(entries).value, entries[|entries| - 1].newPath), side).Some?
    ensures k in Bundle(Slot(Accumulate(entries).value, entries[|entries| - 1].newPath), side).value
    ensures Bundle(Slot(Accumulate(entries).value, entries[|entries| - 1].newPath), side).value[k]
         == Extract(entries[|entries| - 1].lines, side).value[k]
  {
    var e := entries[|entries| - 1];
    AccumulateInit(entries);
    RecordSlot(Accumulate(entries[..|entries| - 1]).value, e, e.newPath);
  }

  /** How a successful `Record` changes one bundle: an entry that feeds it
      extracted successfully and is merged into it, any other entry leaves
      it as it was. */
  lemma RecordBundle(patch: Patch, e: DiffEntry, path: string, side: Polarity)
    requires Record(patch, e).Success?
    ensures Feeds(e, path, side) ==>
      && Extract(e.lines, side).Success?
      && Bundle(Slot(Record(patch, e).value, path), side)
         == Some(Merge(Bundle(Slot(patch, path), side), Extract(e.lines, side).value))
    ensures !Feeds(e, path, side) ==>
      Bundle(Slot(Record(patch, e).value, path), side) == Bundle(Slot(patch, path), side)
  {
    RecordSlot(patch, e, path);
  }

  /** Entry `e` feeds the `side` bundle of `path` with key `k`. */
  predicate Supplies(e: DiffEntry, path: string, side: Polarity, k: string) {
    && Feeds(e, path, side)
    && Extract(e.lines, side).Success?
    && k in Extract(e.lines, side).value
  }

  /** In a successful fold, every entry that feeds a bundle extracted its
      side successfully. */
  lemma {:induction false} FeedingEntriesParse(entries: seq<DiffEntry>, path: string, side: Polarity, i: nat)
    requires Accumulate(entries).Success?
    requires i < |entries| && Feeds(entries[i], path, side)
    ensures Extract(entries[i].lines, side).Success?
  {
    var init := entries[..|entries| - 1];
    AccumulateInit(entries);
    if i == |entries| - 1 {
      RecordBundle(Accumulate(init).value, entries[i], path, side);
    } else {
      assert init[i] == entries[i];
      FeedingEntriesParse(init, path, side, i);
    }
  }

  /** A key is in a file's bundle exactly when some entry feeding that bundle
      extracted it: `putAll` only ever adds keys. */
  lemma {:induction false} AccumulateBundleKeys(entries: seq<DiffEntry>, path: string, side: Polarity, k: string)
    requires Accumulate(entries).Success?
    ensures var b := Bundle(Slot(Accumulate(entries).value, path), side);
            (b.Some? && k in b.value) <==> exists i :: 0 <= i < |entries| && Supplies(entries[i], path, side, k)
  {
    if entries != [] {
      var init, e := entries[..|entries| - 1], entries[|entries| - 1];
      AccumulateInit(entries);
      AccumulateBundleKeys(init, path, side, k);
      RecordBundle(Accumulate(init).value, e, path, side);
      if Supplies(e, path, side, k) {
        assert Supplies(entries[|entries| - 1], path, side, k);
      } else if exists i :: 0 <= i < |init| && Supplies(init[i], path, side, k) {
        var i :| 0 <= i < |init| && Supplies(init[i], path, side, k);
        assert entries[i] == init[i];
      } else {
        forall i | 0 <= i < |entries| ensures !Supplies(entries[i], path, side, k) {
          if i < |init| {
            assert entries[i] == init[i];
          }
        }
      }
    }
  }

  /** Entry `i` is the last entry feeding the `side` bundle of `path` with
      key `k`. */
  ghost predicate LastSupplier(entries: seq<DiffEntry>, path: string, side: Polarity, k: string, i: int) {
    && 0 <= i < |entries|
    && Supplies(entries[i], path, side, k)
    && forall j :: i < j < |entries| ==> !Supplies(entries[j], path, side, k)
  }

  /** `putAll`: a key of a bundle holds the value extracted by the last entry
      that fed it that key; entries of the file that do not extract the key
      leave it alone. */
  lemma {:induction false} AccumulateLastWins(entries: seq<DiffEntry>, path: string, side: Polarity, k: string, i: int)
    requires Accumulate(entries).Success?
    requires LastSupplier(entries, path, side, k, i)
    ensures Bundle(Slot(Accumulate(entries).value, path), side).Some?
    ensures k in Bundle(Slot(Accumulate(entries).value, path), side).value
    ensures Bundle(Slot(Accumulate(entries).value, path), side).value[k] == Extract(entries[i].lines, side).value[k]
  {
    var init, e := entries[..|entries| - 1], entries[|entries| - 1];
    AccumulateInit(entries);
    RecordBundle(Accumulate(init).value, e, path, side);
    if i < |entries| - 1 {
      assert !Supplies(e, path, side, k);
      assert LastSupplier(init, path, side, k, i) by {
        assert init[i] == entries[i];
        forall j | i < j < |init| ensures !Supplies(init[j], path, side, k) {
          assert init[j] == entries[j];
        }
      }
      AccumulateLastWins(init, path, side, k, i);
    }
  }

  /** The value a bundle holds for a key is the one written on the last line
      defining it, in the last entry of the file that extracted it. */
  lemma BundleValueFromLine(entries: seq<DiffEntry>, path: string, side: Polarity, k: string, i: int, j: int)
    requires Accumulate(entries).Success?
    requires LastSupplier(entries, path, side, k, i)
    requires LastDefiner(entries[i].lines, side, k, j)
    ensures Bundle(Slot(Accumulate(entries).value, path), side).Some?
    ensures k in Bundle(Slot(Accumulate(entries).value, path), side).value
    ensures Bundle(Slot(Accumulate(entries).value, path), side).value[k] == Parse(entries[i].lines[j]).value.1
  {
    AccumulateLastWins(entries, path, side, k, i);
    ExtractLastWins(entries[i].lines, side, k, j);
  }

  /** A RENAME or COPY entry can be dropped from anywhere in the list. */
  lemma {:induction false} RenameCopyIgnored(a: seq<DiffEntry>, e: DiffEntry, b: seq<DiffEntry>)
    requires e.kind.Rename? || e.kind.Copy?
    ensures Accumulate(a + [e] + b) == Accumulate(a + b)
  {
    if b == [] {
      assert a + [e] + b == a + [e];
      assert (a + [e])[..|a|] == a;
      assert a + b == a;
    } else {
      var init := b[..|b| - 1];
      RenameCopyIgnored(a, e, init);
      assert (a + [e] + b)[..|a + [e] + b| - 1] == a + [e] + init;
      assert (a + b)[..|a + b| - 1] == a + init;
      assert (a + [e] + b)[|a + [e] + b| - 1] == b[|b| - 1] == (a + b)[|a + b| - 1];
    }
  }

  /** The entries of one path, in their order. */
  function ForPath(entries: seq<DiffEntry>, path: string): (r: seq<DiffEntry>)
    ensures forall i :: 0 <= i < |r| ==> r[i].newPath == path
  {
    if entries == [] then []
    else
      var rest := ForPath(entries[..|entries| - 1], path);
      if entries[|entries| - 1].newPath == path then rest + [entries[|entries| - 1]] else rest
  }

  /** A file's slot depends only on the entries of that file: the fold over
      just those entries succeeds and gives the same slot. */
  lemma {:induction false} SlotDependsOnOwnEntries(entries: seq<DiffEntry>, path: string)
    requires Accumulate(entries).Success?
    ensures Accumulate(ForPath(entries, path)).Success?
    ensures Slot(Accumulate(ForPath(entries, path)).value, path) == Slot(Accumulate(entries).value, path)
  {
    if entries != [] {
      var init := entries[..|entries| - 1];
      var e := entries[|entries| - 1];
      var own := ForPath(init, path);
      AccumulateInit(entries);
      SlotDependsOnOwnEntries(init, path);
      RecordSlot(Accumulate(init).value, e, path);
      if e.newPath == path {
        assert ForPath(entries, path) == own + [e];
        assert (own + [e])[..|own|] == own;
        if e.kind.Rename? || e.kind.Copy? {
        } else {
          RecordSlot(Accumulate(own).value, e, path);
        }
      }
    }
  }

  // ---------------------------------------------------------------------------
  // Reduction
  // ---------------------------------------------------------------------------

  /** A key is effective exactly when the ADD bundle holds it with a
      non-empty value and the DELETE bundle does not hold it with that same
      value; its effective value is always the ADD value. */
  lemma EffectiveMeaning(fp: FilePatch, k: string)
    ensures k in Effective(fp) <==>
      && fp.added.Some? && k in fp.added.value && fp.added.value[k] != ""
      && (fp.removed.None? || k !in fp.removed.value || fp.removed.value[k] != fp.added.value[k])
    ensures k in Effective(fp) ==> Effective(fp)[k] == fp.added.value[k]
  {
  }

  /** An entry added and removed with the same value cancels out. */
  lemma IdenticalPairCancels(fp: FilePatch, k: string)
    requires fp.added.Some? && fp.removed.Some?
    requires k in fp.added.value && k in fp.removed.value
    requires fp.added.value[k] == fp.removed.value[k]
    ensures k !in Effective(fp)
  {
  }

  /** Without an ADD bundle, or with an empty one, nothing is effective. */
  lemma NoAdditionNoEffect(fp: FilePatch)
    requires fp.added.None? || fp.added.value == map[]
    ensures Effective(fp) == map[]
  {
  }

  /** Reducing an already reduced bundle against the same deletions changes
      nothing. */
  lemma EffectiveIdempotent(fp: FilePatch)
    ensures Effective(FilePatch(Some(Effective(fp)), fp.removed)) == Effective(fp)
  {
    var e := Effective(fp);
    var again := FilePatch(Some(e), fp.removed);
    forall k | k in e
      ensures k in Effective(again) && Effective(again)[k] == e[k]
    {
      EffectiveMeaning(fp, k);
      EffectiveMeaning(again, k);
    }
    forall k | k in Effective(again)
      ensures k in e
    {
      EffectiveMeaning(again, k);
    }
  }

  /** A file is in the reduced table exactly when its slot has a non-empty
      effective map, and then with that map. */
  lemma ReduceBySlot(patch: Patch, path: string)
    ensures path in Reduce(patch) <==> Effective(Slot(patch, path)) != map[]
    ensures path in Reduce(patch) ==> Reduce(patch)[path] == Effective(Slot(patch, path))
  {
    if path !in patch {
      NoAdditionNoEffect(Slot(patch, path));
    }
  }

  /** A table with one file reduces to that file's effective entries, or
      to nothing when there are none. */
  lemma ReduceSingle(path: string, fp: FilePatch)
    ensures Reduce(map[path := fp]) == if Effective(fp) == map[] then map[] else map[path := Effective(fp)]
  {
    var patch := map[path := fp];
    ReduceBySlot(patch, path);
    assert Reduce(patch).Keys <= {path};
  }

  /** A lone added entry with a non-empty value and nothing removed is
      effective. */
  lemma SingleAdditionEffective(k: string, v: string)
    requires v != ""
    ensures Effective(FilePatch(Some(map[k := v]), Some(map[]))) == map[k := v]
  {
    var fp := FilePatch(Some(map[k := v]), Some(map[]));
    EffectiveMeaning(fp, k);
    assert Effective(fp).Keys <= {k};
  }

  // ---------------------------------------------------------------------------
  // The whole extraction
  // ---------------------------------------------------------------------------

  /** Every file of the result has a translatable path, was the target of an
      ADD or MODIFY entry, and maps to a non-empty set of entries whose values
      are non-empty. */
  lemma ResultShape(entries: seq<DiffEntry>, path: string)
    requires EffectiveChangesOf(entries).Success?
    requires path in EffectiveChangesOf(entries).value
    ensures IsTranslatable(path)
    ensures exists i :: 0 <= i < |entries| && Feeds(entries[i], path, Addition)
    ensures EffectiveChangesOf(entries).value[path] != map[]
    ensures forall k :: k in EffectiveChangesOf(entries).value[path] ==> EffectiveChangesOf(entries).value[path][k] != ""
  {
    var changes := Changes(entries);
    var patch := Accumulate(changes).value;
    ReduceBySlot(patch, path);
    var fp := Slot(patch, path);
    assert fp.added.Some? by {
      if fp.added.None? {
        NoAdditionNoEffect(fp);
      }
    }
    AccumulateBundles(changes, path, Addition);
    var i :| 0 <= i < |changes| && Feeds(changes[i], path, Addition);
    ChangesKeepsTranslatable(entries, changes[i]);
    var j :| 0 <= j < |entries| && entries[j] == changes[i];
    assert Feeds(entries[j], path, Addition);
    forall k | k in Effective(fp)
      ensures Effective(fp)[k] != ""
    {
      EffectiveMeaning(fp, k);
    }
  }

  /** The path filter commutes with taking one file's entries. */
  lemma {:induction false} ChangesForPath(entries: seq<DiffEntry>, path: string)
    ensures Changes(ForPath(entries, path)) == ForPath(Changes(entries), path)
  {
    if entries != [] {
      var init := entries[..|entries| - 1];
      var e := entries[|entries| - 1];
      ChangesForPath(init, path);
      var own := ForPath(init, path);
      var kept := Changes(init);
      if e.newPath == path {
        assert (own + [e])[..|own|] == own;
        if IsTranslatable(e.newPath) {
          assert (kept + [e])[..|kept|] == kept;
        }
      } else if IsTranslatable(e.newPath) {
        assert (kept + [e])[..|kept|] == kept;
      }
    }
  }

  /** Each file's result depends only on the entries of that file: whatever
      the other files' diffs hold, as long as the run does not abort, the
      file is reported with the same entries as a run over its own diff. */
  lemma PerFileIndependence(entries: seq<DiffEntry>, path: string)
    requires EffectiveChangesOf(entries).Success?
    ensures EffectiveChangesOf(ForPath(entries, path)).Success?
    ensures path in EffectiveChangesOf(entries).value <==> path in EffectiveChangesOf(ForPath(entries, path)).value
    ensures path in EffectiveChangesOf(entries).value ==>
      EffectiveChangesOf(entries).value[path] == EffectiveChangesOf(ForPath(entries, path)).value[path]
  {
    var changes := Changes(entries);
    ChangesForPath(entries, path);
    SlotDependsOnOwnEntries(changes, path);
    ReduceBySlot(Accumulate(changes).value, path);
    ReduceBySlot(Accumulate(ForPath(changes, path)).value, path);
  }

  // ---------------------------------------------------------------------------
  // Worked diffs
  // ---------------------------------------------------------------------------

  /** The line `+k=v` is an addition of `k` with value `v`. */
  lemma AddedLine()
    ensures Extract(["+k=v"], Addition) == Success(map["k" := "v"])
    ensures Extract(["+k=v"], Deletion) == Success(map[])
  {
    assert "+k=v"[1..] == "k=v";
    TrimUnpadded("k=v");
    assert "+k=v"[..3] == "+k=";
    assert "k=v"[..1] == "k";
    KeyValueOneSeparator();
    assert Selected("+k=v", Addition);
    assert Parse("+k=v") == Some(("k", "v"));
    assert ["+k=v"][..0] == [];
  }

  /** The line `-k=v` is a deletion of `k` with value `v`. */
  lemma RemovedLine()
    ensures Extract(["-k=v"], Deletion) == Success(map["k" := "v"])
    ensures Extract(["-k=v"], Addition) == Success(map[])
  {
    assert "-k=v"[1..] == "k=v";
    TrimUnpadded("k=v");
    assert "-k=v"[..3] == "-k=";
    assert "k=v"[..1] == "k";
    KeyValueOneSeparator();
    assert Selected("-k=v", Deletion);
    assert Parse("-k=v") == Some(("k", "v"));
    assert ["-k=v"][..0] == [];
  }

  /** A single entry is recorded into the empty table. */
  lemma AccumulateOne(e: DiffEntry)
    ensures Accumulate([e]) == Record(map[], e)
  {
    assert [e][..0] == [];
  }

  /** A single MODIFY entry of a translatable path is folded into a fresh slot
      holding its two extractions. */
  lemma SingleModify(path: string, lines: seq<string>, added: Props, removed: Props)
    requires IsTranslatable(path)
    requires Extract(lines, Addition) == Success(added)
    requires Extract(lines, Deletion) == Success(removed)
    ensures EffectiveChangesOf([DiffEntry(path, Modify, lines)]) == Success(Reduce(map[path := FilePatch(Some(added), Some(removed))]))
  {
    var e := DiffEntry(path, Modify, lines);
    assert [e][..0] == [];
    assert Changes([e]) == [e];
    assert Merge(None, added) == added && Merge(None, removed) == removed;
    var fp := FilePatch(Some(added), Some(removed));
    assert Step(Slot(map[], path), e) == Success(fp);
    AccumulateOne(e);
    assert Record(map[], e) == Success(map[path := fp]);
  }

  /** The lines `-k=v` then `+k=v` remove and add the same entry. */
  lemma RemovedThenAddedLines()
    ensures Extract(["-k=v", "+k=v"], Addition) == Success(map["k" := "v"])
    ensures Extract(["-k=v", "+k=v"], Deletion) == Success(map["k" := "v"])
  {
    var lines := ["-k=v", "+k=v"];
    AddedLine();
    RemovedLine();
    assert lines[..1] == ["-k=v"];
  }

  /** A modified bundle with one added line reports that entry. */
  lemma AddedEntryReported(path: string)
    requires IsTranslatable(path)
    ensures EffectiveChangesOf([DiffEntry(path, Modify, ["+k=v"])]) == Success(map[path := map["k" := "v"]])
  {
    AddedLine();
    var fp := FilePatch(Some(map["k" := "v"]), Some(map[]));
    SingleModify(path, ["+k=v"], map["k" := "v"], map[]);
    SingleAdditionEffective("k", "v");
    assert "k" in Effective(fp);
    ReduceSingle(path, fp);
  }

  /** A line removed and added back unchanged cancels out: the file is not
      reported. */
  lemma UnchangedEntryCancels(path: string)
    requires IsTranslatable(path)
    ensures EffectiveChangesOf([DiffEntry(path, Modify, ["-k=v", "+k=v"])]) == Success(map[])
  {
    var lines := ["-k=v", "+k=v"];
    RemovedThenAddedLines();
    var fp := FilePatch(Some(map["k" := "v"]), Some(map["k" := "v"]));
    SingleModify(path, lines, map["k" := "v"], map["k" := "v"]);
    IdenticalPairCancels(fp, "k");
    assert Effective(fp) == map[];
    ReduceSingle(path, fp);
  }

  /** A key added with an empty value is not reported. */
  lemma EmptyValueDropped(path: string)
    requires IsTranslatable(path)
    ensures EffectiveChangesOf([DiffEntry(path, Modify, ["+k="])]) == Success(map[])
  {
    assert "+k="[1..] == "k=";
    TrimUnpadded("k=");
    assert "+k="[..3] == "+k=";
    assert "k="[..1] == "k";
    KeyValueEmptyValue();
    assert Selected("+k=", Addition);
    assert ["+k="][..0] == [];
    assert Extract(["+k="], Addition) == Success(map["k" := ""]);
    assert Extract(["+k="], Deletion) == Success(map[]);
    var fp := FilePatch(Some(map["k" := ""]), Some(map[]));
    SingleModify(path, ["+k="], map["k" := ""], map[]);
    EffectiveMeaning(fp, "k");
    assert Effective(fp) == map[];
    ReduceSingle(path, fp);
  }
}

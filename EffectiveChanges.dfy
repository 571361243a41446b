/** From the changed files of a diff to the net key/value additions of each
    file: entries are folded, by change kind, into a per-file table of added
    and removed entries, which is then reduced to the entries that really
    changed. */
module EffectiveChanges {
  import opened Outcomes
  import opened JavaText
  import opened Translatable
  import opened DiffLines

  /** The change kinds a diff entry can carry. */
  datatype ChangeKind = Add | Delete | Modify | Rename | Copy

  /** One changed file: the new path the diff library reports for it, its
      change kind, and the lines of its unified diff. */
  datatype DiffEntry = DiffEntry(newPath: string, kind: ChangeKind, lines: seq<string>)

  /** A file's slot in the table: its ADD and DELETE bundles, each absent
      until an entry first creates it. */
  datatype FilePatch = FilePatch(added: Option<Props>, removed: Option<Props>)

  /** The table `path -> {ADD -> Properties, DELETE -> Properties}`. */
  type Patch = map<string, FilePatch>

  // ---------------------------------------------------------------------------
  // Specification
  // ---------------------------------------------------------------------------

  /** The filter on the diff entries: only translatable new paths are kept,
      in their order. */
  function Changes(entries: seq<DiffEntry>): seq<DiffEntry> {
    if entries == [] then []
    else
      var rest := Changes(entries[..|entries| - 1]);
      var e := entries[|entries| - 1];
      if IsTranslatable(e.newPath) then rest + [e] else rest
  }

  /** A path's slot, empty before its first entry. */
  function Slot(patch: Patch, path: string): FilePatch {
    if path in patch then patch[path] else FilePatch(None, None)
  }

  /** `putIfAbsent(kind, new Properties())` and then `putAll(entries)`. */
  function Merge(bundle: Option<Props>, entries: Props): Props {
    bundle.GetOr(map[]) + entries
  }

  /** One entry applied to its file's slot: ADD merges the additions into
      the ADD bundle, DELETE the deletions into the DELETE bundle, MODIFY
      both, additions first, from the same lines; RENAME and COPY leave it
      as it is. */
  function Step(fp: FilePatch, e: DiffEntry): Result<FilePatch, ParseError> {
    match e.kind
    case Add =>
      var added :- Extract(e.lines, Addition);
      Success(fp.(added := Some(Merge(fp.added, added))))
    case Delete =>
      var removed :- Extract(e.lines, Deletion);
      Success(fp.(removed := Some(Merge(fp.removed, removed))))
    case Modify =>
      var added :- Extract(e.lines, Addition);
      var removed :- Extract(e.lines, Deletion);
      Success(FilePatch(Some(Merge(fp.added, added)), Some(Merge(fp.removed, removed))))
    case Rename => Success(fp)
    case Copy => Success(fp)
  }

  /** The switch on the change kind for one entry: RENAME and COPY leave the
      table untouched (they do not even create a slot); the other kinds
      replace the path's slot by its `Step`. */
  function Record(patch: Patch, e: DiffEntry): Result<Patch, ParseError> {
    if e.kind.Rename? || e.kind.Copy? then Success(patch)
    else
      var fp :- Step(Slot(patch, e.newPath), e);
      Success(patch[e.newPath := fp])
  }

  /** The table after all entries, in order; the first parse failure aborts. */
  function Accumulate(entries: seq<DiffEntry>): Result<Patch, ParseError> {
    if entries == [] then Success(map[])
    else
      var before :- Accumulate(entries[..|entries| - 1]);
      Record(before, entries[|entries| - 1])
  }

  /** A key of the ADD bundle is a net change when its value is not empty and
      the DELETE bundle is absent, lacks the key or holds another value. */
  predicate NetChange(fp: FilePatch, k: string)
    requires fp.added.Some? && k in fp.added.value
  {
    && (fp.removed.None? || k !in fp.removed.value || fp.removed.value[k] != fp.added.value[k])
    && fp.added.value[k] != ""
  }

  /** The effective changes of one file: nothing unless its ADD bundle exists
      and is non-empty; otherwise its net changes with their ADD values. */
  function Effective(fp: FilePatch): Props {
    if fp.added.Some? && fp.added.value != map[] then
      map k | k in fp.added.value && NetChange(fp, k) :: fp.added.value[k]
    else map[]
  }

  /** The result table: each file with a non-empty effective map. */
  function Reduce(patch: Patch): map<string, Props> {
    map path | path in patch && Effective(patch[path]) != map[] :: Effective(patch[path])
  }

  /** What the whole extraction returns for a list of diff entries. */
  function EffectiveChangesOf(entries: seq<DiffEntry>): Result<map<string, Props>, ParseError> {
    var patch :- Accumulate(Changes(entries));
    Success(Reduce(patch))
  }

  // ---------------------------------------------------------------------------
  // The extraction, step by step
  // ---------------------------------------------------------------------------

  /** Once a prefix of the entries fails, the whole fold fails the same way. */
  lemma {:induction false} AccumulateFailureSticks(entries: seq<DiffEntry>, n: nat)
    requires n <= |entries|
    requires Accumulate(entries[..n]).Failure?
    ensures Accumulate(entries) == Accumulate(entries[..n])
    decreases |entries| - n
  {
    if n < |entries| {
      assert entries[..n + 1][..n] == entries[..n];
      AccumulateFailureSticks(entries, n + 1);
    } else {
      assert entries[..n] == entries;
    }
  }

  /** One pass of the entry loop: the slots are created if absent, then the
      extracted entries are merged into them, ADD before DELETE. */
  method RecordEntry(patch: Patch, e: DiffEntry) returns (r: Result<Patch, ParseError>)
    ensures r == Record(patch, e)
  {
    var path := e.newPath;
    ghost var fp := Slot(patch, path);
    var table := patch;
    match e.kind {
      case Add =>
        if path !in table { table := table[path := FilePatch(None, None)]; }
        if table[path].added.None? { table := table[path := table[path].(added := Some(map[]))]; }
        var added := Extract(e.lines, Addition);
        if added.Failure? { return Failure(added.error); }
        table := table[path := table[path].(added := Some(table[path].added.value + added.value))];
        assert table == patch[path := fp.(added := Some(Merge(fp.added, added.value)))];
      case Delete =>
        if path !in table { table := table[path := FilePatch(None, None)]; }
        if table[path].removed.None? { table := table[path := table[path].(removed := Some(map[]))]; }
        var removed := Extract(e.lines, Deletion);
        if removed.Failure? { return Failure(removed.error); }
        table := table[path := table[path].(removed := Some(table[path].removed.value + removed.value))];
        assert table == patch[path := fp.(removed := Some(Merge(fp.removed, removed.value)))];
      case Modify =>
        if path !in table { table := table[path := FilePatch(None, None)]; }
        if table[path].added.None? { table := table[path := table[path].(added := Some(map[]))]; }
        var added := Extract(e.lines, Addition);
        if added.Failure? { return Failure(added.error); }
        table := table[path := table[path].(added := Some(table[path].added.value + added.value))];
        if table[path].removed.None? { table := table[path := table[path].(removed := Some(map[]))]; }
        var removed := Extract(e.lines, Deletion);
        if removed.Failure? { return Failure(removed.error); }
        table := table[path := table[path].(removed := Some(table[path].removed.value + removed.value))];
        assert table == patch[path := FilePatch(Some(Merge(fp.added, added.value)), Some(Merge(fp.removed, removed.value)))];
      case Rename =>
      case Copy =>
    }
    return Success(table);
  }

  /** The table of the diff entries, filled entry by entry, then reduced
      file by file. */
  method EffectiveChanges(entries: seq<DiffEntry>) returns (r: Result<map<string, Props>, ParseError>)
    ensures r == EffectiveChangesOf(entries)
  {
    var changes := Changes(entries);
    var patch: Patch := map[];
    var i := 0;
    while i < |changes|
      invariant 0 <= i <= |changes|
      invariant Accumulate(changes[..i]) == Success(patch)
    {
      assert changes[..i + 1][..i] == changes[..i];
      var step := RecordEntry(patch, changes[i]);
      if step.Failure? {
        AccumulateFailureSticks(changes, i + 1);
        return Failure(step.error);
      }
      patch := step.value;
      i := i + 1;
    }
    assert changes[..i] == changes;

    var result: map<string, Props> := map[];
    var pending := patch.Keys;
    while pending != {}
      invariant pending <= patch.Keys
      invariant forall p :: p in result <==> p in patch && p !in pending && Effective(patch[p]) != map[]
      invariant forall p :: p in result ==> result[p] == Effective(patch[p])
      decreases pending
    {
      var p :| p in pending;
      var properties := Effective(patch[p]);
      if properties != map[] {
        result := result[p := properties];
      }
      pending := pending - {p};
    }
    assert result == Reduce(patch);
    return Success(result);
  }
}

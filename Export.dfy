/** Writing the export: one numbered properties file per changed bundle and a
    `metadata` manifest mapping each written file back to its bundle, plus
    the run's summary entries. The output directory is modelled as the map
    from file name to the properties stored in it; it may already hold files
    of an earlier run, which are kept unless a file of the same name is
    written. */
module Export {
  import opened Outcomes
  import opened JavaText
  import opened DiffLines

  /** Why an export stops: the output directory is missing and cannot be
      created, the extraction aborted, or the manifest cannot be stored. */
  datatype ExportError = OutputDirectoryUnavailable | ExtractionFailed(ParseError) | ManifestNotStored

  /** The files of the output directory after the run, and the error that
      ended it, if any. */
  datatype Outcome = Outcome(directory: map<string, Props>, error: Option<ExportError>)

  /** The name of the manifest file. */
  const ManifestName := "metadata"

  /** The summary keys of the manifest. */
  const RepositoryKey := "metadata.git.repository.path"
  const SinceKey := "metadata.extraction.since"
  const TotalFileKey := "metadata.total.file"
  const TotalKeysKey := "metadata.total.keys"

  /** The name of a bundle's file: the counter value it is written under, a
      dash and the bundle's base name. */
  function OutputName(counter: nat, path: string): string {
    Decimal(counter) + "-" + BaseName(path)
  }

  /** The output names of the visits, in visiting order: the counter starts
      at 1. */
  function OutputNames(order: seq<string>): (names: seq<string>)
    ensures |names| == |order|
  {
    seq(|order|, i requires 0 <= i < |order| => OutputName(i + 1, order[i]))
  }

  lemma OutputNameAt(order: seq<string>, i: nat)
    requires i < |order|
    ensures OutputNames(order)[i] == OutputName(i + 1, order[i])
  {
  }

  /** Names that start with a digit and are pairwise distinct. */
  predicate WellNamed(names: seq<string>) {
    && (forall i :: 0 <= i < |names| ==> names[i] != [] && IsDigit(names[i][0]))
    && (forall i, j :: 0 <= i < j < |names| ==> names[i] != names[j])
  }

  /** Every visited path is a key of the changes. */
  predicate Listed(byFile: map<string, Props>, order: seq<string>) {
    forall i :: 0 <= i < |order| ==> order[i] in byFile
  }

  /** `order` is an iteration order of the changes: each key exactly once. */
  ghost predicate Enumerates(byFile: map<string, Props>, order: seq<string>) {
    && Listed(byFile, order)
    && (forall p :: p in byFile ==> exists i :: 0 <= i < |order| && order[i] == p)
    && (forall i, j :: 0 <= i < j < |order| ==> order[i] != order[j])
  }

  /** The directory, holding `before` at the start, after the bundle files
      of the first `n` visited paths are written; `stored[i]` says whether
      storing the `i`-th one succeeded. */
  function BundleFiles(before: map<string, Props>, byFile: map<string, Props>, order: seq<string>, names: seq<string>, stored: seq<bool>, n: nat): map<string, Props>
    requires n <= |order| == |names| == |stored| && Listed(byFile, order)
  {
    if n == 0 then before
    else
      var rest := BundleFiles(before, byFile, order, names, stored, n - 1);
      if stored[n - 1] then rest[names[n - 1] := byFile[order[n - 1]]] else rest
  }

  /** The name-to-path entries of the manifest for the first `n` paths: only
      files that were stored are recorded. */
  function Mapping(order: seq<string>, names: seq<string>, stored: seq<bool>, n: nat): Props
    requires n <= |order| == |names| == |stored|
  {
    if n == 0 then map[]
    else
      var rest := Mapping(order, names, stored, n - 1);
      if stored[n - 1] then rest[names[n - 1] := order[n - 1]] else rest
  }

  /** The number of keys of the first `n` bundles, stored or not. */
  function KeyTotal(byFile: map<string, Props>, order: seq<string>, n: nat): nat
    requires n <= |order| && Listed(byFile, order)
  {
    if n == 0 then 0 else KeyTotal(byFile, order, n - 1) + |byFile[order[n - 1]]|
  }

  /** The manifest: the name-to-path entries, then the summary. The file
      total is the counter's final value, one more than the number of
      bundles visited. */
  function Manifest(repositoryPath: string, since: string, byFile: map<string, Props>, order: seq<string>, names: seq<string>, stored: seq<bool>): Props
    requires |order| == |names| == |stored| && Listed(byFile, order)
  {
    Mapping(order, names, stored, |order|)
      [RepositoryKey := repositoryPath]
      [SinceKey := since]
      [TotalFileKey := Decimal(|order| + 1)]
      [TotalKeysKey := Decimal(KeyTotal(byFile, order, |order|))]
  }

  /** The whole export, into a directory holding `before`. The directory
      check comes first, then the extraction; a bundle that cannot be stored
      is skipped; a manifest that cannot be stored fails the run after the
      bundle files are written. */
  function ExportOf(repositoryPath: string, since: string, before: map<string, Props>, outDirReady: bool,
                    changes: Result<map<string, Props>, ParseError>,
                    order: seq<string>, stored: seq<bool>, manifestStored: bool): Outcome
    requires |order| == |stored|
    requires changes.Success? ==> Listed(changes.value, order)
  {
    if !outDirReady then Outcome(before, Some(OutputDirectoryUnavailable))
    else if changes.Failure? then Outcome(before, Some(ExtractionFailed(changes.error)))
    else
      var names := OutputNames(order);
      var files := BundleFiles(before, changes.value, order, names, stored, |order|);
      if !manifestStored then Outcome(files, Some(ManifestNotStored))
      else Outcome(files[ManifestName := Manifest(repositoryPath, since, changes.value, order, names, stored)], None)
  }

  /** `exportChanged`. `before` is what the output directory holds at the
      start (nothing when it has to be created), `outDirReady` says whether
      it exists or can be created, `changes` is the extraction's outcome, `order` the
      order in which its files are visited, `stored[i]` whether writing the
      `i`-th file succeeded and `manifestStored` whether writing the manifest
      did. */
  method ExportChanged(repositoryPath: string, since: string, before: map<string, Props>, outDirReady: bool,
                       changes: Result<map<string, Props>, ParseError>,
                       order: seq<string>, stored: seq<bool>, manifestStored: bool)
    returns (outcome: Outcome)
    requires |order| == |stored|
    requires changes.Success? ==> Enumerates(changes.value, order)
    ensures outcome == ExportOf(repositoryPath, since, before, outDirReady, changes, order, stored, manifestStored)
  {
    if !outDirReady {
      return Outcome(before, Some(OutputDirectoryUnavailable));
    }
    if changes.Failure? {
      return Outcome(before, Some(ExtractionFailed(changes.error)));
    }
    var byFile := changes.value;
    var directory := before;
    var mapping: Props := map[];
    var counter := 1;
    var keysCounter := 0;
    ghost var names := OutputNames(order);
    for i := 0 to |order|
      invariant counter == i + 1
      invariant keysCounter == KeyTotal(byFile, order, i)
      invariant directory == BundleFiles(before, byFile, order, names, stored, i)
      invariant mapping == Mapping(order, names, stored, i)
    {
      var path := order[i];
      keysCounter := keysCounter + |byFile[path]|;
      var name := OutputName(counter, path);
      OutputNameAt(order, i);
      assert name == names[i];
      counter := counter + 1;
      if stored[i] {
        directory := directory[name := byFile[path]];
        mapping := mapping[name := path];
      }
      assert directory == BundleFiles(before, byFile, order, names, stored, i + 1);
      assert mapping == Mapping(order, names, stored, i + 1);
    }
    mapping := mapping[RepositoryKey := repositoryPath];
    mapping := mapping[SinceKey := since];
    mapping := mapping[TotalFileKey := Decimal(counter)];
    mapping := mapping[TotalKeysKey := Decimal(keysCounter)];
    if !manifestStored {
      return Outcome(directory, Some(ManifestNotStored));
    }
    directory := directory[ManifestName := mapping];
    return Outcome(directory, None);
  }

  // ---------------------------------------------------------------------------
  // Naming
  // ---------------------------------------------------------------------------

  /** The first dash after a run of digits is the one that ends the run. */
  lemma DashAfterDigits(a: string, x: string)
    requires forall k :: 0 <= k < |a| ==> IsDigit(a[k])
    ensures IndexOf(a + "-" + x, '-') == |a|
  {
    var s := a + "-" + x;
    IndexOfFacts(s, '-');
    assert s[|a|] == '-';
    assert s[..|a|] == a;
  }

  /** A counter, a dash and any text: the counter can be read back. */
  lemma NumberedNameInjective(m: nat, n: nat, x: string, y: string)
    requires Decimal(m) + "-" + x == Decimal(n) + "-" + y
    ensures m == n
  {
    var a, b := Decimal(m), Decimal(n);
    var s := a + "-" + x;
    DashAfterDigits(a, x);
    DashAfterDigits(b, y);
    assert a == s[..|a|] == b;
    DecimalInjective(m, n);
  }

  /** Different counter values never give the same file name, whatever the
      paths. */
  lemma OutputNamesDistinct(m: nat, n: nat, p: string, q: string)
    requires m != n
    ensures OutputName(m, p) != OutputName(n, q)
  {
    if OutputName(m, p) == OutputName(n, q) {
      NumberedNameInjective(m, n, BaseName(p), BaseName(q));
    }
  }

  /** The file name starts with the counter, which reads back, and ends with
      the bundle's base name. */
  lemma OutputNameParts(counter: nat, p: string)
    ensures EndsWith(OutputName(counter, p), BaseName(p))
    ensures DecimalValue(OutputName(counter, p)[..|Decimal(counter)|]) == counter
    ensures IndexOf(OutputName(counter, p), '-') == |Decimal(counter)|
  {
    var name := OutputName(counter, p);
    assert name[..|Decimal(counter)|] == Decimal(counter);
    assert name[|name| - |BaseName(p)|..] == BaseName(p);
    DecimalRoundTrip(counter);
    DashAfterDigits(Decimal(counter), BaseName(p));
  }

  /** The visits' output names start with a digit and never clash. */
  lemma OutputNamesWellNamed(order: seq<string>)
    ensures WellNamed(OutputNames(order))
  {
    var names := OutputNames(order);
    forall i | 0 <= i < |names|
      ensures names[i] != [] && IsDigit(names[i][0])
    {
      assert names[i][0] == Decimal(i + 1)[0];
    }
    forall i, j | 0 <= i < j < |names|
      ensures names[i] != names[j]
    {
      OutputNamesDistinct(i + 1, j + 1, order[i], order[j]);
    }
  }

  /** Names starting with a digit are neither the manifest's name nor one of
      its summary keys. */
  lemma WellNamedNotReserved(names: seq<string>)
    requires WellNamed(names)
    ensures forall i :: 0 <= i < |names| ==>
      names[i] != ManifestName && names[i] != RepositoryKey && names[i] != SinceKey
      && names[i] != TotalFileKey && names[i] != TotalKeysKey
  {
    forall i | 0 <= i < |names|
      ensures names[i] != ManifestName && names[i] != RepositoryKey && names[i] != SinceKey
      ensures names[i] != TotalFileKey && names[i] != TotalKeysKey
    {
      assert IsDigit(names[i][0]);
    }
  }

  // ---------------------------------------------------------------------------
  // Files and manifest
  // ---------------------------------------------------------------------------

  /** How many of the first `n` writes succeeded. */
  function StoredCount(stored: seq<bool>, n: nat): nat
    requires n <= |stored|
  {
    if n == 0 then 0 else StoredCount(stored, n - 1) + (if stored[n - 1] then 1 else 0)
  }

  /** How many of the first `n` successful writes created a file that was
      not in `before`. */
  function NewFileCount(before: map<string, Props>, names: seq<string>, stored: seq<bool>, n: nat): nat
    requires n <= |names| == |stored|
  {
    if n == 0 then 0
    else NewFileCount(before, names, stored, n - 1) + (if stored[n - 1] && names[n - 1] !in before then 1 else 0)
  }

  /** In a directory that starts empty every successful write is a new file. */
  lemma {:induction false} NewFileCountEmpty(names: seq<string>, stored: seq<bool>, n: nat)
    requires n <= |names| == |stored|
    ensures NewFileCount(map[], names, stored, n) == StoredCount(stored, n)
  {
    if n > 0 {
      NewFileCountEmpty(names, stored, n - 1);
    }
  }

  /** The directory holds a file exactly under the names it held before and
      the name of each stored visit. */
  lemma {:induction false} BundleFileNames(before: map<string, Props>, byFile: map<string, Props>, order: seq<string>, names: seq<string>, stored: seq<bool>, n: nat, name: string)
    requires n <= |order| == |names| == |stored| && Listed(byFile, order)
    ensures name in BundleFiles(before, byFile, order, names, stored, n) <==>
      name in before || exists i :: 0 <= i < n && stored[i] && name == names[i]
  {
    if n > 0 {
      BundleFileNames(before, byFile, order, names, stored, n - 1, name);
    }
  }

  /** Each stored visit's file holds exactly that bundle's changes: no later
      visit overwrites it. */
  lemma {:induction false} BundleFileContent(before: map<string, Props>, byFile: map<string, Props>, order: seq<string>, names: seq<string>, stored: seq<bool>, n: nat, i: nat)
    requires n <= |order| == |names| == |stored| && Listed(byFile, order) && WellNamed(names)
    requires i < n && stored[i]
    ensures names[i] in BundleFiles(before, byFile, order, names, stored, n)
    ensures BundleFiles(before, byFile, order, names, stored, n)[names[i]] == byFile[order[i]]
  {
    if i < n - 1 {
      BundleFileContent(before, byFile, order, names, stored, n - 1, i);
    }
  }

  /** A file of an earlier run that no successful write of this run names is
      left as it was, even when a failed write of this run had its name. */
  lemma {:induction false} EarlierFileKept(before: map<string, Props>, byFile: map<string, Props>, order: seq<string>, names: seq<string>, stored: seq<bool>, n: nat, name: string)
    requires n <= |order| == |names| == |stored| && Listed(byFile, order)
    requires name in before
    requires forall i :: 0 <= i < n && stored[i] ==> names[i] != name
    ensures name in BundleFiles(before, byFile, order, names, stored, n)
    ensures BundleFiles(before, byFile, order, names, stored, n)[name] == before[name]
  {
    if n > 0 {
      EarlierFileKept(before, byFile, order, names, stored, n - 1, name);
    }
  }

  /** The directory grows by one file per successful write whose name was
      not there yet: the names of one run never clash. */
  lemma {:induction false} BundleFileCount(before: map<string, Props>, byFile: map<string, Props>, order: seq<string>, names: seq<string>, stored: seq<bool>, n: nat)
    requires n <= |order| == |names| == |stored| && Listed(byFile, order) && WellNamed(names)
    ensures |BundleFiles(before, byFile, order, names, stored, n)| == |before| + NewFileCount(before, names, stored, n)
  {
    if n > 0 {
      BundleFileCount(before, byFile, order, names, stored, n - 1);
      BundleFileNames(before, byFile, order, names, stored, n - 1, names[n - 1]);
    }
  }

  /** The manifest's file entries are named like the stored files. */
  lemma {:induction false} MappingNames(order: seq<string>, names: seq<string>, stored: seq<bool>, n: nat, name: string)
    requires n <= |order| == |names| == |stored|
    ensures name in Mapping(order, names, stored, n) <==>
      exists i :: 0 <= i < n && stored[i] && name == names[i]
  {
    if n > 0 {
      MappingNames(order, names, stored, n - 1, name);
    }
  }

  /** The manifest maps each stored file's name back to its bundle path, and
      names no file that was not stored. */
  lemma {:induction false} MappingEntries(order: seq<string>, names: seq<string>, stored: seq<bool>, n: nat, i: nat)
    requires n <= |order| == |names| == |stored| && WellNamed(names)
    requires i < n
    ensures stored[i] ==>
      names[i] in Mapping(order, names, stored, n) && Mapping(order, names, stored, n)[names[i]] == order[i]
    ensures !stored[i] ==> names[i] !in Mapping(order, names, stored, n)
  {
    if i < n - 1 {
      MappingEntries(order, names, stored, n - 1, i);
    }
    if !stored[i] {
      MappingNames(order, names, stored, n, names[i]);
    }
  }

  /** The manifest's summary, whatever the writes did and even for a run
      with no changed file: the repository path, `since`, the file total
      (one more than the number of visits) and the number of keys of all
      visited bundles, stored or not. */
  lemma ManifestSummary(repositoryPath: string, since: string, byFile: map<string, Props>, order: seq<string>, names: seq<string>, stored: seq<bool>)
    requires |order| == |names| == |stored| && Listed(byFile, order)
    ensures var m := Manifest(repositoryPath, since, byFile, order, names, stored);
      && RepositoryKey in m && m[RepositoryKey] == repositoryPath
      && SinceKey in m && m[SinceKey] == since
      && TotalFileKey in m && DecimalValue(m[TotalFileKey]) == |order| + 1
      && TotalKeysKey in m && DecimalValue(m[TotalKeysKey]) == KeyTotal(byFile, order, |order|)
  {
    DecimalRoundTrip(|order| + 1);
    DecimalRoundTrip(KeyTotal(byFile, order, |order|));
  }

  /** The manifest records a visit's file under its name exactly when the
      file was stored, and maps it back to the bundle's path. */
  lemma ManifestContent(repositoryPath: string, since: string, byFile: map<string, Props>, order: seq<string>, names: seq<string>, stored: seq<bool>, i: nat)
    requires |order| == |names| == |stored| && Listed(byFile, order) && WellNamed(names)
    requires i < |order|
    ensures var m := Manifest(repositoryPath, since, byFile, order, names, stored);
      && (stored[i] ==> names[i] in m && m[names[i]] == order[i])
      && (!stored[i] ==> names[i] !in m)
  {
    MappingEntries(order, names, stored, |order|, i);
    WellNamedNotReserved(names);
  }

  /** The manifest's keys are the four summary keys and the names of the
      stored files, nothing else. */
  lemma ManifestKeys(repositoryPath: string, since: string, byFile: map<string, Props>, order: seq<string>, names: seq<string>, stored: seq<bool>, name: string)
    requires |order| == |names| == |stored| && Listed(byFile, order)
    ensures name in Manifest(repositoryPath, since, byFile, order, names, stored) <==>
      || name == RepositoryKey || name == SinceKey || name == TotalFileKey || name == TotalKeysKey
      || exists i :: 0 <= i < |order| && stored[i] && name == names[i]
  {
    MappingNames(order, names, stored, |order|, name);
  }

  /** The run succeeds exactly when the directory is usable, the extraction
      succeeded and the manifest was stored. Failing before the loop leaves
      the directory as it was. On success the directory gains one file per
      stored bundle whose name was new, plus the manifest unless an earlier
      one is replaced, and no bundle file overwrites the manifest; in a
      directory that starts empty that is one file per stored bundle plus
      the manifest. */
  lemma ExportSucceeds(repositoryPath: string, since: string, before: map<string, Props>, outDirReady: bool,
                       changes: Result<map<string, Props>, ParseError>,
                       order: seq<string>, stored: seq<bool>, manifestStored: bool)
    requires |order| == |stored|
    requires changes.Success? ==> Listed(changes.value, order)
    ensures var o := ExportOf(repositoryPath, since, before, outDirReady, changes, order, stored, manifestStored);
      && (o.error.None? <==> outDirReady && changes.Success? && manifestStored)
      && (!outDirReady || changes.Failure? ==> o.directory == before)
      && (o.error.None? ==>
            |o.directory| == |before| + NewFileCount(before, OutputNames(order), stored, |order|)
                             + (if ManifestName in before then 0 else 1))
      && (o.error.None? && before == map[] ==> |o.directory| == StoredCount(stored, |order|) + 1)
  {
    if outDirReady && changes.Success? && manifestStored {
      var names := OutputNames(order);
      OutputNamesWellNamed(order);
      WellNamedNotReserved(names);
      BundleFileCount(before, changes.value, order, names, stored, |order|);
      BundleFileNames(before, changes.value, order, names, stored, |order|, ManifestName);
      NewFileCountEmpty(names, stored, |order|);
    }
  }
}

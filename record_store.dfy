/** The advisory files of the database and the reconciliation the sync
    performs on them: GitHubAdvisory#update, #create and #sync per package,
    per advisory, and GitHubAdvisorySync.sync for the whole run. The file
    system is a map from path to the file's contents. */
module RecordStore {
  import opened Values
  import opened Text
  import opened Advisories
  import opened GraphQLClient
  import opened PackageRecords

  /** The first YAML document of an advisory file: a mapping, or something
      that is not one (a null document, or an empty file). */
  datatype Document = Mapping(record: Record) | NullDocument

  /** The trailing YAML document create writes below the record: the raw
      advisory with its vulnerabilities, for a maintainer to read. */
  datatype RawData = RawData(advisory: AdvisoryData, vulnerabilities: seq<Vulnerability>)

  datatype File = File(document: Document, rawData: Option<RawData>)

  type Files = map<string, File>

  /** The files after one package is synced, and what sync returned for it. */
  datatype Step = Step(files: Files, result: Result<Option<string>, Error>)

  /** The files after several packages are synced, and the returned list. */
  datatype Run = Run(files: Files, result: Result<seq<Option<string>>, Error>)

  /** The files after the whole sync, and its return value. */
  datatype Outcome = Outcome(files: Files, result: Result<seq<string>, Error>)

  // ---------------------------------------------------------------------
  // One package

  /** GitHubAdvisory#update: load the saved record, merge it, and rewrite
      the file with the merged record alone unless it equals the saved one
      as a Hash. The rewrite drops any trailing raw data; a nil merge writes
      a null document. */
  function UpdateStep(files: Files, p: Package, path: string): Step
    requires path in files
  {
    var saved := files[path].document;
    if saved.NullDocument? then Step(files, Failure(NoMethodError("saved_data")))
    else
      var merged := MergeResult(saved.record, PackageHash(p));
      if merged.Failure? then Step(files, Failure(merged.error))
      else if merged.value.Some? && SameHash(saved.record, merged.value.value) then Step(files, Success(None))
      else
        var document := if merged.value.Some? then Mapping(merged.value.value) else NullDocument;
        Step(files[path := File(document, None)], Success(Some(path)))
  }

  const FillInIfAvailable := "<FILL IN IF AVAILABLE>"
  const FillInSeeBelow := "<FILL IN SEE BELOW>"
  const OptionalFillIn := "<OPTIONAL: FILL IN SEE BELOW>"

  /** The record create merges: placeholders for the fields a maintainer
      has to write. */
  function Placeholders(a: AdvisoryData): Record {
    [ ("cvss_v3", if CvssScore(a) == Nil then Str(FillInIfAvailable) else Nil),
      ("patched_versions", List([Str(FillInSeeBelow)])),
      ("unaffected_versions", List([Str(OptionalFillIn)])) ]
  }

  function StringList(xs: seq<string>): Value {
    List(seq(|xs|, i requires 0 <= i < |xs| => Str(xs[i])))
  }

  /** `advisory["references"]`: the `{url}` objects of the advisory. */
  function ReferenceList(urls: seq<string>): Value {
    List(seq(|urls|, i requires 0 <= i < |urls| => Hash([("url", Str(urls[i]))])))
  }

  /** The fields create writes over the merged record. */
  function CreateOverrides(p: Package): Record {
    [ ("patched_versions", StringList(Constraints(FirstPatchedVersions(p.advisory, p)))),
      ("related", Hash([("url", ReferenceList(p.advisory.advisory.references))])) ]
  }

  /** GitHubAdvisory#create: merge the placeholders, override
      `patched_versions` and `related`, write the result followed by the
      raw advisory data. The file is opened before the merged record is
      used, so a nil merge leaves an empty file behind and raises. */
  function CreateStep(files: Files, p: Package, path: string): Step {
    var merged := MergeResult(Placeholders(p.advisory.advisory), PackageHash(p));
    if merged.Failure? then Step(files, Failure(merged.error))
    else if merged.value.None? then Step(files[path := File(NullDocument, None)], Failure(NoMethodError("merge")))
    else
      var record := HashMerge(merged.value.value, CreateOverrides(p));
      var raw := RawData(p.advisory.advisory, p.advisory.vulnerabilities);
      Step(files[path := File(Mapping(record), Some(raw))], Success(Some(path)))
  }

  /** The sync of one package: update when its file exists, else create. */
  function SyncPackageStep(files: Files, p: Package): Step {
    var path := Filename(p);
    if path.Failure? then Step(files, Failure(path.error))
    else if path.value in files then UpdateStep(files, p, path.value)
    else CreateStep(files, p, path.value)
  }

  // ---------------------------------------------------------------------
  // Many packages, many advisories, the whole run

  /** Packages synced one after the other; the first exception ends the run. */
  function SyncPackages(files: Files, ps: seq<Package>): Run {
    if ps == [] then Run(files, Success([]))
    else
      var prev := SyncPackages(files, ps[..|ps| - 1]);
      if prev.result.Failure? then prev
      else
        var step := SyncPackageStep(prev.files, ps[|ps| - 1]);
        if step.result.Failure? then Run(step.files, Failure(step.result.error))
        else Run(step.files, Success(prev.result.value + [step.result.value]))
  }

  /** `gh_advisories.filter_map(&:sync).flatten`: every advisory's package
      results, one advisory after the other (sync always returns an array,
      so filter_map drops nothing). */
  function SyncAdvisories(files: Files, advs: seq<Advisory>): Run {
    if advs == [] then Run(files, Success([]))
    else
      var prev := SyncAdvisories(files, advs[..|advs| - 1]);
      if prev.result.Failure? then prev
      else
        var run := SyncPackages(prev.files, Packages(advs[|advs| - 1]));
        if run.result.Failure? then run
        else Run(run.files, Success(prev.result.value + run.result.value))
  }

  /** After the first exception the remaining packages are not synced. */
  lemma {:induction false} SyncPackagesStopsAtFailure(files: Files, ps: seq<Package>, n: nat)
    requires n <= |ps| && SyncPackages(files, ps[..n]).result.Failure?
    ensures SyncPackages(files, ps) == SyncPackages(files, ps[..n])
    decreases |ps| - n
  {
    if n < |ps| {
      assert ps[..n + 1][..n] == ps[..n];
      SyncPackagesStopsAtFailure(files, ps, n + 1);
    } else {
      assert ps[..n] == ps;
    }
  }

  /** After the first exception the remaining advisories are not synced. */
  lemma {:induction false} SyncAdvisoriesStopsAtFailure(files: Files, advs: seq<Advisory>, n: nat)
    requires n <= |advs| && SyncAdvisories(files, advs[..n]).result.Failure?
    ensures SyncAdvisories(files, advs) == SyncAdvisories(files, advs[..n])
    decreases |advs| - n
  {
    if n < |advs| {
      assert advs[..n + 1][..n] == advs[..n];
      SyncAdvisoriesStopsAtFailure(files, advs, n + 1);
    } else {
      assert advs[..n] == advs;
    }
  }

  /** Syncing one more package after a successful prefix. */
  lemma SyncPackagesExtend(files: Files, ps: seq<Package>, i: nat)
    requires i < |ps| && SyncPackages(files, ps[..i]).result.Success?
    ensures var prev := SyncPackages(files, ps[..i]);
            var step := SyncPackageStep(prev.files, ps[i]);
            SyncPackages(files, ps[..i + 1]) ==
              if step.result.Failure? then Run(step.files, Failure(step.result.error))
              else Run(step.files, Success(prev.result.value + [step.result.value]))
  {
    assert ps[..i + 1][..i] == ps[..i];
  }

  /** Syncing one more advisory after a successful prefix. */
  lemma SyncAdvisoriesExtend(files: Files, advs: seq<Advisory>, i: nat)
    requires i < |advs| && SyncAdvisories(files, advs[..i]).result.Success?
    ensures var prev := SyncAdvisories(files, advs[..i]);
            var run := SyncPackages(prev.files, Packages(advs[i]));
            SyncAdvisories(files, advs[..i + 1]) ==
              if run.result.Failure? then run
              else Run(run.files, Success(prev.result.value + run.result.value))
  {
    assert advs[..i + 1][..i] == advs[..i];
  }

  /** The paths among the results, in order. */
  function Written(results: seq<Option<string>>): seq<string> {
    if results == [] then []
    else Written(results[..|results| - 1]) + (if results[|results| - 1].Some? then [results[|results| - 1].value] else [])
  }

  /** Array#compact! on the results: the paths without the nils, or nil
      when there was no nil to remove. */
  function CompactPaths(results: seq<Option<string>>): (r: Option<seq<string>>)
    ensures r.None? <==> None !in results
    ensures r.None? <==> |Written(results)| == |results|
    ensures r.Some? ==> r.value == Written(results) && |r.value| < |results|
  {
    WrittenLength(results);
    if None in results then Some(Written(results)) else None
  }

  /** Dropping the nil results shortens the list exactly when there is one. */
  lemma {:induction false} WrittenLength(results: seq<Option<string>>)
    ensures |Written(results)| <= |results|
    ensures |Written(results)| == |results| <==> None !in results
  {
    if results != [] {
      var pre := results[..|results| - 1];
      WrittenLength(pre);
      assert results == pre + [results[|results| - 1]];
    }
  }

  /** `select! { |v| v.cve_after_year?(min_year) }`. */
  function SelectFromYear(advs: seq<Advisory>, minYear: int): (r: seq<Advisory>)
    ensures forall x :: x in r <==> x in advs && CveAfterYear(x.advisory, minYear)
  {
    if advs == [] then []
    else
      var last := advs[|advs| - 1];
      SelectFromYear(advs[..|advs| - 1], minYear) + (if CveAfterYear(last.advisory, minYear) then [last] else [])
  }

  /** GitHubAdvisorySync.sync: fetch and aggregate the advisories, keep
      those from `minYear` on, sync each, flatten and compact! the results.
      When compact! answers nil (no result was nil, including when there
      was nothing to sync) the `empty?` call on it raises. */
  function SyncOutcome(files: Files, fetch: Option<string> -> Response, minYear: int): Outcome {
    var advs := AllAdvisories(fetch);
    if advs.Failure? then Outcome(files, Failure(advs.error))
    else
      var run := SyncAdvisories(files, SelectFromYear(advs.value, minYear));
      if run.result.Failure? then Outcome(run.files, Failure(run.result.error))
      else
        var written := CompactPaths(run.result.value);
        if written.None? then Outcome(run.files, Failure(NoMethodError("files_written")))
        else Outcome(run.files, Success(written.value))
  }

  // ---------------------------------------------------------------------
  // The file store

  /** The advisory files of the database, keyed by path. */
  class AdvisoryStore {
    var files: Files

    constructor (initial: Files)
      ensures files == initial
    {
      files := initial;
    }

    /** GitHubAdvisory#update. */
    method Update(p: Package, path: string) returns (r: Result<Option<string>, Error>)
      requires path in files
      modifies this
      ensures Step(files, r) == UpdateStep(old(files), p, path)
    {
      var saved := files[path].document;
      if saved.NullDocument? {
        r := Failure(NoMethodError("saved_data"));
        return;
      }
      var merged := MergeData(p, saved.record);
      if merged.Failure? {
        r := Failure(merged.error);
        return;
      }
      if merged.value.Some? && SameHash(saved.record, merged.value.value) {
        r := Success(None);
        return;
      }
      var document := if merged.value.Some? then Mapping(merged.value.value) else NullDocument;
      files := files[path := File(document, None)];
      r := Success(Some(path));
    }

    /** GitHubAdvisory#create. */
    method Create(p: Package, path: string) returns (r: Result<Option<string>, Error>)
      modifies this
      ensures Step(files, r) == CreateStep(old(files), p, path)
    {
      var a := p.advisory.advisory;
      var merged := MergeData(p, Placeholders(a));
      if merged.Failure? {
        r := Failure(merged.error);
        return;
      }
      if merged.value.None? {
        files := files[path := File(NullDocument, None)];
        r := Failure(NoMethodError("merge"));
        return;
      }
      var patched := PatchedVersionsFor(p.advisory, p);
      var overrides := [("patched_versions", StringList(patched)), ("related", Hash([("url", ReferenceList(a.references))]))];
      var record := HashMerge(merged.value.value, overrides);
      files := files[path := File(Mapping(record), Some(RawData(a, p.advisory.vulnerabilities)))];
      r := Success(Some(path));
    }

    /** The per-package branch of GitHubAdvisory#sync. */
    method SyncPackage(p: Package) returns (r: Result<Option<string>, Error>)
      modifies this
      ensures Step(files, r) == SyncPackageStep(old(files), p)
    {
      var path := Filename(p);
      if path.Failure? {
        r := Failure(path.error);
        return;
      }
      if path.value in files {
        r := Update(p, path.value);
      } else {
        r := Create(p, path.value);
      }
    }

    /** GitHubAdvisory#sync: the packages' results, in order. */
    method SyncAdvisory(a: Advisory) returns (r: Result<seq<Option<string>>, Error>)
      modifies this
      ensures Run(files, r) == SyncPackages(old(files), Packages(a))
    {
      var ps := Packages(a);
      var results: seq<Option<string>> := [];
      var i := 0;
      while i < |ps|
        invariant 0 <= i <= |ps|
        invariant Run(files, Success(results)) == SyncPackages(old(files), ps[..i])
      {
        SyncPackagesExtend(old(files), ps, i);
        var x := SyncPackage(ps[i]);
        if x.Failure? {
          SyncPackagesStopsAtFailure(old(files), ps, i + 1);
          r := Failure(x.error);
          return;
        }
        results := results + [x.value];
        i := i + 1;
      }
      assert ps[..|ps|] == ps;
      r := Success(results);
    }

    /** All advisories synced in order, their results flattened. */
    method SyncAll(advs: seq<Advisory>) returns (r: Result<seq<Option<string>>, Error>)
      modifies this
      ensures Run(files, r) == SyncAdvisories(old(files), advs)
    {
      var results: seq<Option<string>> := [];
      var i := 0;
      while i < |advs|
        invariant 0 <= i <= |advs|
        invariant Run(files, Success(results)) == SyncAdvisories(old(files), advs[..i])
      {
        SyncAdvisoriesExtend(old(files), advs, i);
        var x := SyncAdvisory(advs[i]);
        if x.Failure? {
          SyncAdvisoriesStopsAtFailure(old(files), advs, i + 1);
          r := Failure(x.error);
          return;
        }
        results := results + x.value;
        i := i + 1;
      }
      assert advs[..|advs|] == advs;
      r := Success(results);
    }

    /** GitHubAdvisorySync.sync. */
    method Sync(fetch: Option<string> -> Response, minYear: int) returns (r: Result<seq<string>, Error>)
      modifies this
      ensures Outcome(files, r) == SyncOutcome(old(files), fetch, minYear)
    {
      var advs := AllRubygemAdvisories(fetch);
      if advs.Failure? {
        r := Failure(advs.error);
        return;
      }
      var selected := SelectFromYear(advs.value, minYear);
      var results := SyncAll(selected);
      if results.Failure? {
        r := Failure(results.error);
        return;
      }
      var written := CompactPaths(results.value);
      if written.None? {
        r := Failure(NoMethodError("files_written"));
        return;
      }
      r := Success(written.value);
    }
  }

  // ---------------------------------------------------------------------
  // Properties

  /** Syncing a package touches at most the file at its path. */
  lemma SyncTouchesOnlyItsFile(files: Files, p: Package)
    ensures var s := SyncPackageStep(files, p);
            s.files == files ||
            (Filename(p).Success? && Filename(p).value in s.files &&
             s.files == files[Filename(p).value := s.files[Filename(p).value]])
  {
    if Filename(p).Success? {
      var path := Filename(p).value;
      if path in files {
        UpdateTouchesOnlyPath(files, p, path);
      } else {
        CreateTouchesOnlyPath(files, p, path);
      }
    }
  }

  lemma UpdateTouchesOnlyPath(files: Files, p: Package, path: string)
    requires path in files
    ensures var s := UpdateStep(files, p, path);
            s.files == files || (path in s.files && s.files == files[path := s.files[path]])
  {
  }

  lemma CreateTouchesOnlyPath(files: Files, p: Package, path: string)
    ensures var s := CreateStep(files, p, path);
            s.files == files || (path in s.files && s.files == files[path := s.files[path]])
  {
  }

  /** What sync returns for a package says whether its file changed: nil
      exactly when nothing was written, the package's path exactly when
      the file at that path is new or different. A raised exception leaves
      the files alone, except for the empty file a nil merge in create
      leaves behind. */
  lemma SyncReportsWrites(files: Files, p: Package)
    ensures var s := SyncPackageStep(files, p);
            && (s.result.Success? ==> (s.result.value.None? <==> s.files == files))
            && (s.result.Success? && s.result.value.Some? ==>
                  Filename(p) == Success(s.result.value.value) &&
                  s.result.value.value in s.files &&
                  (s.result.value.value in files ==> s.files[s.result.value.value] != files[s.result.value.value]))
            && (s.result.Failure? && s.result.error != NoMethodError("merge") ==> s.files == files)
  {
    var s := SyncPackageStep(files, p);
    if Filename(p).Success? && Filename(p).value in files && s.result == Success(Some(Filename(p).value)) {
      var path := Filename(p).value;
      var saved := files[path].document;
      var merged := MergeResult(saved.record, PackageHash(p));
      if merged.value.Some? {
        assert !SameHash(saved.record, merged.value.value);
        assert merged.value.value != saved.record;
      }
      assert s.files[path] != files[path];
    }
  }

  /** update writes nothing and returns nil exactly when the merged record
      equals the saved one as a Hash; otherwise it stores the merged record
      (none for a nil merge) and returns the path. */
  lemma UpdateWritesOnlyChanges(files: Files, p: Package, path: string)
    requires path in files && files[path].document.Mapping?
    requires MergeResult(files[path].document.record, PackageHash(p)).Success?
    ensures var saved := files[path].document.record;
            var merged := MergeResult(saved, PackageHash(p)).value;
            var s := UpdateStep(files, p, path);
            && (s.result == Success(None) <==> merged.Some? && SameHash(saved, merged.value))
            && (s.result == Success(None) ==> s.files == files)
            && (s.result != Success(None) ==>
                  s.result == Success(Some(path)) &&
                  s.files == files[path := File(if merged.Some? then Mapping(merged.value) else NullDocument, None)])
  {
  }

  /** When update rewrites a file, it keeps every truthy saved KEY as it
      was, fills each other KEY from the derived record, drops keys outside
      KEYS and the raw data below the record, and writes a null document
      exactly when no KEY came out nil. */
  lemma UpdateKeepsSavedFields(files: Files, p: Package, path: string, k: string)
    requires path in files && files[path].document.Mapping?
    requires UpdateStep(files, p, path).result == Success(Some(path))
    ensures var saved := files[path].document.record;
            var derived := FreshRecord(PackageHash(p));
            var f := UpdateStep(files, p, path).files[path];
            && f.rawData.None?
            && (f.document.NullDocument? <==> forall key :: key in Keys ==> MergedValue(saved, derived, key) != Nil)
            && (f.document.Mapping? ==>
                  && (k in Keys && Truthy(Get(saved, k)) ==> Get(f.document.record, k) == Get(saved, k))
                  && (k in Keys && !Truthy(Get(saved, k)) ==> Get(f.document.record, k) == Get(derived, k))
                  && (k !in Keys ==> Get(f.document.record, k) == Nil))
  {
    var saved := files[path].document.record;
    KeysDistinct();
    MergeOutcomes(Keys, saved, PackageHash(p));
    if MergeResult(saved, PackageHash(p)).value.Some? {
      MergeLookups(Keys, saved, PackageHash(p), k);
    }
  }

  /** The placeholders create merges. */
  lemma PlaceholderLookups(a: AdvisoryData, k: string)
    ensures Get(Placeholders(a), k) ==
            if k == "cvss_v3" then (if CvssScore(a) == Nil then Str(FillInIfAvailable) else Nil)
            else if k == "patched_versions" then List([Str(FillInSeeBelow)])
            else if k == "unaffected_versions" then List([Str(OptionalFillIn)])
            else Nil
  {
    var ph := Placeholders(a);
    assert ph[..2][..1] == [ph[0]] && ph[..2][..1][..0] == [];
    assert ToMap(ph[..2][..1]) == map["cvss_v3" := ph[0].1];
    assert ToMap(ph[..2]) == map["cvss_v3" := ph[0].1, "patched_versions" := ph[1].1];
    assert ToMap(ph) == map["cvss_v3" := ph[0].1, "patched_versions" := ph[1].1, "unaffected_versions" := ph[2].1];
  }

  /** The merge of the placeholders never answers nil: to_h never has a
      `library` field, so compact! always removes something. */
  lemma CreateMergeIsNeverNil(p: Package)
    requires PackageHash(p).Success?
    ensures MergeResult(Placeholders(p.advisory.advisory), PackageHash(p)).Success?
    ensures MergeResult(Placeholders(p.advisory.advisory), PackageHash(p)).value.Some?
  {
    PlaceholderAbsent(p.advisory.advisory, "library");
    LibraryNotDerived(p);
    KeyPositions();
    MergeWithNilField(Keys, Placeholders(p.advisory.advisory), PackageHash(p), "library");
  }

  lemma PlaceholderAbsent(a: AdvisoryData, k: string)
    requires k != "cvss_v3" && k != "patched_versions" && k != "unaffected_versions"
    ensures Get(Placeholders(a), k) == Nil
  {
    PlaceholderLookups(a, k);
  }

  lemma LibraryNotDerived(p: Package)
    requires PackageHash(p).Success?
    ensures Get(PackageHash(p).value, "library") == Nil
  {
    PackageHashOmits(p, "library");
  }

  /** The placeholders merged with to_h, which is never nil. */
  function PlaceholderMerge(p: Package): Record
    requires PackageHash(p).Success?
  {
    CreateMergeIsNeverNil(p);
    MergeResult(Placeholders(p.advisory.advisory), PackageHash(p)).value.value
  }

  /** The overrides replace `patched_versions` and `related`; every other
      field reads as in the merged record. */
  lemma CreatedField(m: Record, p: Package, k: string)
    ensures Get(HashMerge(m, CreateOverrides(p)), k) ==
            if k == "patched_versions" then StringList(Constraints(FirstPatchedVersions(p.advisory, p)))
            else if k == "related" then Hash([("url", ReferenceList(p.advisory.advisory.references))])
            else Get(m, k)
  {
    var o := CreateOverrides(p);
    assert o[..1] == [o[0]] && o[..1][..0] == [];
    assert ToMap(o[..1]) == map["patched_versions" := o[0].1];
    assert ToMap(o) == map["patched_versions" := o[0].1, "related" := o[1].1];
    GetHashMerge(m, o, k);
  }

  /** A field of KEYS in the placeholder merge: the placeholder when it is
      set, the to_h value otherwise. */
  lemma PlaceholderMergeField(p: Package, k: string)
    requires PackageHash(p).Success? && k in Keys
    ensures Get(PlaceholderMerge(p), k) == MergedValue(Placeholders(p.advisory.advisory), PackageHash(p).value, k)
  {
    KeysDistinct();
    CreateMergeIsNeverNil(p);
    MergeLookups(Keys, Placeholders(p.advisory.advisory), PackageHash(p), k);
  }

  /** The `cvss_v3` and `url` fields of Package#to_h. */
  lemma DerivedCvssAndUrl(p: Package)
    requires PackageHash(p).Success?
    ensures Get(PackageHash(p).value, "cvss_v3") == CvssScore(p.advisory.advisory)
    ensures Get(PackageHash(p).value, "url") == Str(ExternalReference(p.advisory.advisory).value)
  {
    PackageHashFields(p);
    AdvisoryHashFields(p.advisory.advisory);
  }

  /** create stores its merge of the placeholders with `patched_versions`
      set to the synthesised constraints and `related.url` to the
      advisory's references, followed by the raw data, and returns the path. */
  lemma CreateWritesRecord(files: Files, p: Package, path: string)
    requires PackageHash(p).Success?
    ensures var s := CreateStep(files, p, path);
            var a := p.advisory.advisory;
            && s.result == Success(Some(path))
            && s.files == files[path := File(Mapping(HashMerge(PlaceholderMerge(p), CreateOverrides(p))),
                                             Some(RawData(a, p.advisory.vulnerabilities)))]
  {
    CreateMergeIsNeverNil(p);
  }

  /** The fields of the record create writes: the gem name, the synthesised
      constraints, the references, the `unaffected_versions` placeholder,
      the CVSS score or its placeholder, and the first non-NVD reference. */
  lemma CreatedRecordFields(p: Package)
    requires PackageHash(p).Success?
    ensures var w := HashMerge(PlaceholderMerge(p), CreateOverrides(p));
            var a := p.advisory.advisory;
            && Get(w, "gem") == Str(p.name)
            && Get(w, "patched_versions") == StringList(Constraints(FirstPatchedVersions(p.advisory, p)))
            && Get(w, "related") == Hash([("url", ReferenceList(a.references))])
            && Get(w, "unaffected_versions") == List([Str(OptionalFillIn)])
            && Get(w, "cvss_v3") == (if CvssScore(a) == Nil then Str(FillInIfAvailable) else CvssScore(a))
            && Get(w, "url") == Str(ExternalReference(a).value)
  {
    CreatedField(PlaceholderMerge(p), p, "patched_versions");
    CreatedField(PlaceholderMerge(p), p, "related");
    CreatedFromToH(p);
    CreatedFromPlaceholders(p);
  }

  lemma CreatedFromToH(p: Package)
    requires PackageHash(p).Success?
    ensures var w := HashMerge(PlaceholderMerge(p), CreateOverrides(p));
            Get(w, "gem") == Str(p.name) && Get(w, "url") == Str(ExternalReference(p.advisory.advisory).value)
  {
    var a := p.advisory.advisory;
    KeyPositions();
    CreatedPlainField(p, "gem");
    CreatedPlainField(p, "url");
    PlaceholderAbsent(a, "gem");
    PlaceholderAbsent(a, "url");
    PackageHashGet(p, "gem");
    AdvisoryHashOmitsPackageKeys(a);
    DerivedCvssAndUrl(p);
  }

  lemma CreatedFromPlaceholders(p: Package)
    requires PackageHash(p).Success?
    ensures var w := HashMerge(PlaceholderMerge(p), CreateOverrides(p));
            var a := p.advisory.advisory;
            && Get(w, "unaffected_versions") == List([Str(OptionalFillIn)])
            && Get(w, "cvss_v3") == (if CvssScore(a) == Nil then Str(FillInIfAvailable) else CvssScore(a))
  {
    var a := p.advisory.advisory;
    KeyPositions();
    CreatedPlainField(p, "unaffected_versions");
    CreatedPlainField(p, "cvss_v3");
    PlaceholderLookups(a, "unaffected_versions");
    PlaceholderLookups(a, "cvss_v3");
    DerivedCvssAndUrl(p);
  }

  /** A field of KEYS other than the overridden two reads as in the placeholder merge. */
  lemma CreatedPlainField(p: Package, k: string)
    requires PackageHash(p).Success? && k in Keys && k != "patched_versions" && k != "related"
    ensures Get(HashMerge(PlaceholderMerge(p), CreateOverrides(p)), k) ==
            MergedValue(Placeholders(p.advisory.advisory), PackageHash(p).value, k)
  {
    CreatedField(PlaceholderMerge(p), p, k);
    PlaceholderMergeField(p, k);
  }

  /** A package is settled when syncing it again writes nothing and returns nil. */
  predicate Settled(files: Files, p: Package) {
    SyncPackageStep(files, p) == Step(files, Success(None))
  }

  /** After a successful sync of a package whose file holds a mapping, a
      second sync of it with the same GitHub data writes nothing. */
  lemma SyncIsIdempotent(files: Files, p: Package)
    requires SyncPackageStep(files, p).result.Success?
    requires Filename(p).Success? && Filename(p).value in SyncPackageStep(files, p).files
    requires SyncPackageStep(files, p).files[Filename(p).value].document.Mapping?
    ensures Settled(SyncPackageStep(files, p).files, p)
  {
    var s := SyncPackageStep(files, p);
    var path := Filename(p).value;
    if s.result.value.Some? {
      if path in files {
        var saved := files[path].document.record;
        KeysDistinct();
        MergeIdempotent(Keys, saved, PackageHash(p));
      } else {
        CreateThenUpdateIsSettled(files, p, path);
      }
    }
  }

  lemma CreateThenUpdateIsSettled(files: Files, p: Package, path: string)
    requires Filename(p) == Success(path) && path !in files
    requires SyncPackageStep(files, p).result.Success?
    ensures Settled(SyncPackageStep(files, p).files, p)
  {
    CreateNeedsToH(p);
    CreateWritesRecord(files, p, path);
    CreatedRecordSettled(p);
  }

  /** create always evaluates to_h (the `gem` field has no placeholder), so
      it succeeds only when to_h does. */
  lemma CreateNeedsToH(p: Package)
    ensures MergeResult(Placeholders(p.advisory.advisory), PackageHash(p)).Success? ==> PackageHash(p).Success?
  {
    KeysDistinct();
    PlaceholderAbsent(p.advisory.advisory, "gem");
    KeyPositions();
    assert NeedsFresh(Keys, Placeholders(p.advisory.advisory));
  }

  /** The record create writes merges back to itself: update then writes nothing. */
  lemma CreatedRecordSettled(p: Package)
    requires PackageHash(p).Success?
    ensures var w := HashMerge(PlaceholderMerge(p), CreateOverrides(p));
            MergeResult(w, PackageHash(p)).Success? && MergeResult(w, PackageHash(p)).value.Some? &&
            SameHash(w, MergeResult(w, PackageHash(p)).value.value)
  {
    CreatedRecordIsSettledMerge(HashMerge(PlaceholderMerge(p), CreateOverrides(p)), p);
  }

  lemma CreatedRecordIsSettledMerge(w: Record, p: Package)
    requires PackageHash(p).Success? && w == HashMerge(PlaceholderMerge(p), CreateOverrides(p))
    ensures MergeResult(w, PackageHash(p)).Success? && MergeResult(w, PackageHash(p)).value.Some?
    ensures SameHash(w, MergeResult(w, PackageHash(p)).value.value)
  {
    CreatedSettlesUnderMerge(w, p);
    MergeResultSettled(w, PackageHash(p));
  }

  lemma CreatedSettlesUnderMerge(w: Record, p: Package)
    requires PackageHash(p).Success? && w == HashMerge(PlaceholderMerge(p), CreateOverrides(p))
    ensures SettlesUnderMerge(w, PackageHash(p).value)
  {
    CreatedEntries(w, p);
    CreatedFalsyFields(w, p);
    CreatedLibraryIsNil(p);
    KeyPositions();
  }

  lemma CreatedEntries(w: Record, p: Package)
    requires PackageHash(p).Success? && w == HashMerge(PlaceholderMerge(p), CreateOverrides(p))
    ensures forall i :: 0 <= i < |w| ==> w[i].1 != Nil && w[i].0 in Keys
  {
    forall i | 0 <= i < |w| ensures w[i].1 != Nil && w[i].0 in Keys {
      CreatedEntry(p, i);
    }
  }

  lemma CreatedFalsyFields(w: Record, p: Package)
    requires PackageHash(p).Success? && w == HashMerge(PlaceholderMerge(p), CreateOverrides(p))
    ensures forall k :: k in Keys && !Truthy(Get(w, k)) ==> Get(w, k) == Get(PackageHash(p).value, k)
  {
    forall k | k in Keys && !Truthy(Get(w, k)) ensures Get(w, k) == Get(PackageHash(p).value, k) {
      CreatedFalsyField(p, k);
    }
  }

  lemma CreatedEntry(p: Package, i: nat)
    requires PackageHash(p).Success?
    requires i < |HashMerge(PlaceholderMerge(p), CreateOverrides(p))|
    ensures var w := HashMerge(PlaceholderMerge(p), CreateOverrides(p));
            w[i].1 != Nil && w[i].0 in Keys
  {
    var m := PlaceholderMerge(p);
    var o := CreateOverrides(p);
    KeysDistinct();
    CreateMergeIsNeverNil(p);
    MergeShape(Keys, Placeholders(p.advisory.advisory), PackageHash(p));
    HashMergeEntries(m, o, i);
    KeyPositions();
  }

  lemma CreatedFalsyField(p: Package, k: string)
    requires PackageHash(p).Success? && k in Keys
    requires !Truthy(Get(HashMerge(PlaceholderMerge(p), CreateOverrides(p)), k))
    ensures Get(HashMerge(PlaceholderMerge(p), CreateOverrides(p)), k) == Get(PackageHash(p).value, k)
  {
    CreatedField(PlaceholderMerge(p), p, k);
    PlaceholderMergeField(p, k);
  }

  lemma CreatedLibraryIsNil(p: Package)
    requires PackageHash(p).Success?
    ensures Get(HashMerge(PlaceholderMerge(p), CreateOverrides(p)), "library") == Nil
  {
    var m := PlaceholderMerge(p);
    assert Get(HashMerge(m, CreateOverrides(p)), "library") == Get(m, "library") by {
      CreatedField(m, p, "library");
    }
    assert Get(Placeholders(p.advisory.advisory), "library") == Nil by {
      PlaceholderAbsent(p.advisory.advisory, "library");
    }
    assert Get(PackageHash(p).value, "library") == Nil by {
      LibraryNotDerived(p);
    }
    assert Get(m, "library") == Nil by {
      KeyPositions();
      PlaceholderMergeField(p, "library");
    }
  }

  /** Every entry of a Hash#merge comes from one of the two records. */
  lemma {:induction false} HashMergeEntries(a: Record, b: Record, i: nat)
    requires i < |HashMerge(a, b)|
    ensures HashMerge(a, b)[i] in a || HashMerge(a, b)[i] in b
  {
    if b != [] {
      var pre := HashMerge(a, b[..|b| - 1]);
      var last := b[|b| - 1];
      if exists j :: 0 <= j < |pre| && pre[j].0 == last.0 {
        if pre[i].0 != last.0 {
          HashMergeEntries(a, b[..|b| - 1], i);
        }
      } else if i < |pre| {
        HashMergeEntries(a, b[..|b| - 1], i);
      }
    }
  }

  /** A settled package stays settled while its file is left alone. */
  lemma SettledWhileUntouched(files: Files, files': Files, p: Package)
    requires Settled(files, p) && Filename(p).Success?
    requires Filename(p).value in files' <==> Filename(p).value in files
    requires Filename(p).value in files ==> files'[Filename(p).value] == files[Filename(p).value]
    ensures Settled(files', p)
  {
  }

  /** The packages have file names, and no two share one. */
  predicate DistinctFiles(ps: seq<Package>) {
    && (forall i :: 0 <= i < |ps| ==> Filename(ps[i]).Success?)
    && (forall i, j :: 0 <= i < j < |ps| ==> Filename(ps[i]) != Filename(ps[j]))
  }

  /** Each package's file exists and holds a mapping. */
  predicate HoldMappings(files: Files, ps: seq<Package>) {
    forall i :: 0 <= i < |ps| ==>
      Filename(ps[i]).Success? && Filename(ps[i]).value in files && files[Filename(ps[i]).value].document.Mapping?
  }

  predicate AllSettled(files: Files, ps: seq<Package>) {
    forall i :: 0 <= i < |ps| ==> Settled(files, ps[i])
  }

  /** Packages with different files, all synced successfully and leaving
      mappings behind, are all settled afterwards. */
  lemma {:induction false} SyncPackagesSettles(files: Files, ps: seq<Package>)
    requires SyncPackages(files, ps).result.Success? && DistinctFiles(ps)
    requires HoldMappings(SyncPackages(files, ps).files, ps)
    ensures AllSettled(SyncPackages(files, ps).files, ps)
  {
    if ps != [] {
      var pre := ps[..|ps| - 1];
      SyncPackagesLastStep(files, ps);
      PrefixHoldsMappings(files, ps);
      SyncPackagesSettles(files, pre);
      SettledAfterLastStep(files, ps);
    }
  }

  /** The last package's step of a successful run. */
  lemma SyncPackagesLastStep(files: Files, ps: seq<Package>)
    requires ps != [] && SyncPackages(files, ps).result.Success?
    ensures var prev := SyncPackages(files, ps[..|ps| - 1]);
            var step := SyncPackageStep(prev.files, ps[|ps| - 1]);
            prev.result.Success? && step.result.Success? && SyncPackages(files, ps).files == step.files
  {
  }

  /** The files of the earlier packages hold mappings before the last step,
      as the last step leaves them alone. */
  lemma PrefixHoldsMappings(files: Files, ps: seq<Package>)
    requires ps != [] && SyncPackages(files, ps).result.Success? && DistinctFiles(ps)
    requires HoldMappings(SyncPackages(files, ps).files, ps)
    ensures var pre := ps[..|ps| - 1];
            DistinctFiles(pre) && SyncPackages(files, pre).result.Success? &&
            HoldMappings(SyncPackages(files, pre).files, pre)
  {
    var pre := ps[..|ps| - 1];
    var last := ps[|ps| - 1];
    var prev := SyncPackages(files, pre);
    SyncPackagesLastStep(files, ps);
    SyncTouchesOnlyItsFile(prev.files, last);
    var fin := SyncPackageStep(prev.files, last).files;
    forall i | 0 <= i < |pre|
      ensures Filename(pre[i]).value in prev.files && prev.files[Filename(pre[i]).value].document.Mapping?
    {
      assert pre[i] == ps[i] && Filename(ps[i]) != Filename(ps[|ps| - 1]);
      assert Filename(pre[i]).value in fin;
    }
    forall i, j | 0 <= i < j < |pre| ensures Filename(pre[i]) != Filename(pre[j]) {
      assert pre[i] == ps[i] && pre[j] == ps[j];
    }
  }

  lemma SettledAfterLastStep(files: Files, ps: seq<Package>)
    requires ps != [] && SyncPackages(files, ps).result.Success? && DistinctFiles(ps)
    requires HoldMappings(SyncPackages(files, ps).files, ps)
    requires AllSettled(SyncPackages(files, ps[..|ps| - 1]).files, ps[..|ps| - 1])
    ensures AllSettled(SyncPackages(files, ps).files, ps)
  {
    forall i | 0 <= i < |ps| ensures Settled(SyncPackages(files, ps).files, ps[i]) {
      if i < |ps| - 1 {
        EarlierStaysSettled(files, ps, i);
      } else {
        LastIsSettled(files, ps);
      }
    }
  }

  lemma EarlierStaysSettled(files: Files, ps: seq<Package>, i: nat)
    requires i < |ps| - 1 && SyncPackages(files, ps).result.Success? && DistinctFiles(ps)
    requires AllSettled(SyncPackages(files, ps[..|ps| - 1]).files, ps[..|ps| - 1])
    ensures Settled(SyncPackages(files, ps).files, ps[i])
  {
    var pre := ps[..|ps| - 1];
    var last := ps[|ps| - 1];
    var prev := SyncPackages(files, pre).files;
    SyncPackagesLastStep(files, ps);
    SyncTouchesOnlyItsFile(prev, last);
    assert pre[i] == ps[i] && Filename(ps[i]) != Filename(ps[|ps| - 1]);
    assert Settled(prev, pre[i]);
    SettledWhileUntouched(prev, SyncPackages(files, ps).files, ps[i]);
  }

  lemma LastIsSettled(files: Files, ps: seq<Package>)
    requires ps != [] && SyncPackages(files, ps).result.Success? && DistinctFiles(ps)
    requires HoldMappings(SyncPackages(files, ps).files, ps)
    ensures Settled(SyncPackages(files, ps).files, ps[|ps| - 1])
  {
    SyncPackagesLastStep(files, ps);
    SyncIsIdempotent(SyncPackages(files, ps[..|ps| - 1]).files, ps[|ps| - 1]);
  }

  /** `n` nil results: nothing written. */
  function Nones(n: nat): seq<Option<string>> {
    seq(n, i => None)
  }

  /** When every package is settled, syncing them writes nothing and returns nil for each. */
  lemma {:induction false} SettledPackagesWriteNothing(files: Files, ps: seq<Package>)
    requires AllSettled(files, ps)
    ensures SyncPackages(files, ps) == Run(files, Success(Nones(|ps|)))
  {
    if ps != [] {
      var pre := ps[..|ps| - 1];
      forall i | 0 <= i < |pre| ensures Settled(files, pre[i]) {
        assert pre[i] == ps[i];
      }
      SettledPackagesWriteNothing(files, pre);
      assert Settled(files, ps[|ps| - 1]);
      assert Nones(|pre|) + [None] == Nones(|ps|);
    }
  }

  /** Syncing an advisory a second time with the same GitHub data writes
      nothing, provided its gem names are plain path segments, its primary
      id does not start with a separator, and the first sync succeeded and
      left a mapping in each of its files. */
  lemma SecondSyncWritesNothing(files: Files, a: Advisory)
    requires forall i :: 0 <= i < |a.vulnerabilities| ==> PlainSegment(a.vulnerabilities[i].package.name)
    requires PrimaryId(a.advisory).Some? && !StartsWith(PrimaryId(a.advisory).value, "/")
    requires SyncPackages(files, Packages(a)).result.Success?
    requires forall p :: p in Packages(a) ==>
               Filename(p).Success? && Filename(p).value in SyncPackages(files, Packages(a)).files &&
               SyncPackages(files, Packages(a)).files[Filename(p).value].document.Mapping?
    ensures var after := SyncPackages(files, Packages(a)).files;
            SyncPackages(after, Packages(a)) == Run(after, Success(Nones(|Packages(a)|)))
  {
    var ps := Packages(a);
    PackagesDistinctFiles(a);
    assert HoldMappings(SyncPackages(files, ps).files, ps) by {
      forall i | 0 <= i < |ps| ensures Filename(ps[i]).Success? &&
          Filename(ps[i]).value in SyncPackages(files, ps).files &&
          SyncPackages(files, ps).files[Filename(ps[i]).value].document.Mapping? {
        assert ps[i] in ps;
      }
    }
    SyncPackagesSettles(files, ps);
    SettledPackagesWriteNothing(SyncPackages(files, ps).files, ps);
  }

  /** The packages of an advisory with plain gem names and a primary id not
      starting with a separator lie in different files. */
  lemma PackagesDistinctFiles(a: Advisory)
    requires forall i :: 0 <= i < |a.vulnerabilities| ==> PlainSegment(a.vulnerabilities[i].package.name)
    requires PrimaryId(a.advisory).Some? && !StartsWith(PrimaryId(a.advisory).value, "/")
    ensures DistinctFiles(Packages(a))
  {
    var ps := Packages(a);
    forall i | 0 <= i < |ps| ensures PlainSegment(ps[i].name) {
      assert ps[i].name in PackageNames(a);
    }
    forall i, j | 0 <= i < j < |ps| ensures Filename(ps[i]) != Filename(ps[j]) {
      if Filename(ps[i]) == Filename(ps[j]) {
        FilenameInjective(ps[i], ps[j]);
      }
    }
  }

  // ---------------------------------------------------------------------
  // The whole run, twice

  /** The packages of the advisories, one advisory after the other: what
      the whole run syncs. */
  function AllPackages(advs: seq<Advisory>): seq<Package> {
    if advs == [] then [] else AllPackages(advs[..|advs| - 1]) + Packages(advs[|advs| - 1])
  }

  /** One more package after a run; nothing more after an exception. */
  function Extend(prev: Run, p: Package): Run {
    if prev.result.Failure? then prev
    else
      var step := SyncPackageStep(prev.files, p);
      if step.result.Failure? then Run(step.files, Failure(step.result.error))
      else Run(step.files, Success(prev.result.value + [step.result.value]))
  }

  /** More packages after a run; nothing more after an exception. */
  function Continue(prev: Run, qs: seq<Package>): Run {
    if prev.result.Failure? then prev
    else
      var run := SyncPackages(prev.files, qs);
      if run.result.Failure? then run
      else Run(run.files, Success(prev.result.value + run.result.value))
  }

  lemma SyncPackagesUnfold(files: Files, ps: seq<Package>)
    requires ps != []
    ensures SyncPackages(files, ps) == Extend(SyncPackages(files, ps[..|ps| - 1]), ps[|ps| - 1])
  {
  }

  /** Continuing with one more package is extending the continued run. */
  lemma ContinueExtend(prev: Run, front: seq<Package>, q: Package)
    ensures Extend(Continue(prev, front), q) == Continue(prev, front + [q])
  {
    if prev.result.Success? {
      var qs := front + [q];
      assert qs[..|qs| - 1] == front;
      SyncPackagesUnfold(prev.files, qs);
      var run := SyncPackages(prev.files, front);
      if run.result.Success? {
        var step := SyncPackageStep(run.files, q);
        if step.result.Success? {
          SeqAssoc(prev.result.value, run.result.value, [step.result.value]);
        }
      }
    }
  }

  lemma SeqAssoc<T>(a: seq<T>, b: seq<T>, c: seq<T>)
    ensures a + b + c == a + (b + c)
  {
  }

  /** Syncing two lists of packages one after the other is syncing their
      concatenation: the second list starts from the files the first left,
      and its results follow the first's. */
  lemma {:induction false} SyncPackagesAppend(files: Files, ps: seq<Package>, qs: seq<Package>)
    ensures SyncPackages(files, ps + qs) == Continue(SyncPackages(files, ps), qs)
  {
    if qs == [] {
      assert ps + qs == ps;
      var prev := SyncPackages(files, ps);
      if prev.result.Success? {
        assert prev.result.value + [] == prev.result.value;
      }
    } else {
      var front := qs[..|qs| - 1];
      var q := qs[|qs| - 1];
      var whole := ps + qs;
      assert whole[..|whole| - 1] == ps + front && whole[|whole| - 1] == q;
      assert qs == front + [q];
      SyncPackagesUnfold(files, whole);
      SyncPackagesAppend(files, ps, front);
      ContinueExtend(SyncPackages(files, ps), front, q);
    }
  }

  /** Syncing the advisories is syncing all their packages in order. */
  lemma {:induction false} SyncAdvisoriesIsSyncPackages(files: Files, advs: seq<Advisory>)
    ensures SyncAdvisories(files, advs) == SyncPackages(files, AllPackages(advs))
  {
    if advs != [] {
      var pre := advs[..|advs| - 1];
      SyncAdvisoriesIsSyncPackages(files, pre);
      SyncPackagesAppend(files, AllPackages(pre), Packages(advs[|advs| - 1]));
    }
  }

  /** Every package of the run belongs to one of the advisories. */
  lemma {:induction false} AllPackagesMember(advs: seq<Advisory>, p: Package)
    requires p in AllPackages(advs)
    ensures exists i :: 0 <= i < |advs| && p in Packages(advs[i])
  {
    var pre := advs[..|advs| - 1];
    if p in AllPackages(pre) {
      AllPackagesMember(pre, p);
      var i :| 0 <= i < |pre| && p in Packages(pre[i]);
      assert pre[i] == advs[i];
    } else {
      assert p in Packages(advs[|advs| - 1]);
    }
  }

  /** A package of an advisory carries it and is named by one of its vulnerabilities. */
  lemma PackageOf(a: Advisory, p: Package)
    requires p in Packages(a)
    ensures p.advisory == a
    ensures exists k :: 0 <= k < |a.vulnerabilities| && a.vulnerabilities[k].package.name == p.name
  {
    var i :| 0 <= i < |Packages(a)| && Packages(a)[i] == p;
    PackageIsNamed(a, i);
  }

  /** Every gem the advisories name is a plain path segment, and no primary
      id starts with a separator. */
  predicate PlainNames(advs: seq<Advisory>) {
    forall a :: a in advs ==>
      && (forall k :: 0 <= k < |a.vulnerabilities| ==> PlainSegment(a.vulnerabilities[k].package.name))
      && (PrimaryId(a.advisory).Some? ==> !StartsWith(PrimaryId(a.advisory).value, "/"))
  }

  /** Each package file of the advisories exists and holds a mapping. */
  predicate AdvisoryFilesHoldMappings(files: Files, advs: seq<Advisory>) {
    forall a, p :: a in advs && p in Packages(a) ==>
      Filename(p).Success? && Filename(p).value in files && files[Filename(p).value].document.Mapping?
  }

  lemma DistinctFilesAppend(ps: seq<Package>, qs: seq<Package>)
    requires DistinctFiles(ps) && DistinctFiles(qs)
    requires forall p, q :: p in ps && q in qs ==> Filename(p) != Filename(q)
    ensures DistinctFiles(ps + qs)
  {
    var s := ps + qs;
    forall i | 0 <= i < |s| ensures Filename(s[i]).Success? {
      if i < |ps| {
        assert s[i] == ps[i];
      } else {
        assert s[i] == qs[i - |ps|];
      }
    }
    forall i, j | 0 <= i < j < |s| ensures Filename(s[i]) != Filename(s[j]) {
      if j < |ps| {
        assert s[i] == ps[i] && s[j] == ps[j];
      } else if i >= |ps| {
        assert s[i] == qs[i - |ps|] && s[j] == qs[j - |ps|];
      } else {
        assert s[i] == ps[i] && ps[i] in ps;
        assert s[j] == qs[j - |ps|] && qs[j - |ps|] in qs;
      }
    }
  }

  /** Advisories with distinct primary ids and plain names give every
      package of the run its own file. */
  lemma {:induction false} AllPackagesDistinctFiles(advs: seq<Advisory>)
    requires DistinctIds(advs) && PlainNames(advs)
    ensures DistinctFiles(AllPackages(advs))
  {
    if advs != [] {
      var pre := advs[..|advs| - 1];
      var last := advs[|advs| - 1];
      assert DistinctIds(pre) by {
        forall i | 0 <= i < |pre| ensures pre[i] == advs[i] {
        }
      }
      assert PlainNames(pre) by {
        forall a | a in pre ensures a in advs {
        }
      }
      AllPackagesDistinctFiles(pre);
      assert last in advs;
      PackagesDistinctFiles(last);
      forall p, q | p in AllPackages(pre) && q in Packages(last) ensures Filename(p) != Filename(q) {
        DistinctOwners(advs, p, q);
      }
      DistinctFilesAppend(AllPackages(pre), Packages(last));
    }
  }

  /** A package of an earlier advisory and one of the last lie in different files. */
  lemma DistinctOwners(advs: seq<Advisory>, p: Package, q: Package)
    requires advs != [] && DistinctIds(advs) && PlainNames(advs)
    requires p in AllPackages(advs[..|advs| - 1]) && q in Packages(advs[|advs| - 1])
    ensures Filename(p) != Filename(q)
  {
    var pre := advs[..|advs| - 1];
    var last := advs[|advs| - 1];
    AllPackagesMember(pre, p);
    var i :| 0 <= i < |pre| && p in Packages(pre[i]);
    assert pre[i] == advs[i] && advs[i] in advs && last in advs;
    PackageOf(advs[i], p);
    PackageOf(last, q);
    if Filename(p) == Filename(q) {
      FilenameInjective(p, q);
    }
  }

  lemma AllPackagesHoldMappings(files: Files, advs: seq<Advisory>)
    requires AdvisoryFilesHoldMappings(files, advs)
    ensures HoldMappings(files, AllPackages(advs))
  {
    var ps := AllPackages(advs);
    forall i | 0 <= i < |ps|
      ensures Filename(ps[i]).Success? && Filename(ps[i]).value in files && files[Filename(ps[i]).value].document.Mapping?
    {
      AllPackagesMember(advs, ps[i]);
      var j :| 0 <= j < |advs| && ps[i] in Packages(advs[j]);
      assert advs[j] in advs;
    }
  }

  /** Only nil results: compact! returns an empty list, or nil when there
      are no results at all. */
  lemma {:induction false} WrittenNones(n: nat)
    ensures Written(Nones(n)) == []
    ensures CompactPaths(Nones(n)) == if n == 0 then None else Some([])
  {
    if n > 0 {
      assert Nones(n)[..n - 1] == Nones(n - 1);
      assert Nones(n)[0] == None;
      WrittenNones(n - 1);
    }
  }

  /** Running the whole sync a second time with the same GitHub data writes
      no file. It returns an empty list when there was a package to sync,
      and raises on `files_written.empty?` (compact! of an empty list is nil)
      when there was none. This holds when the first run synced every
      selected advisory without an exception, every gem name is a plain
      path segment, no primary id starts with a separator, and every
      package file holds a mapping afterwards. */
  lemma SecondRunWritesNothing(files: Files, fetch: Option<string> -> Response, minYear: int)
    requires AllAdvisories(fetch).Success?
    requires SyncAdvisories(files, SelectFromYear(AllAdvisories(fetch).value, minYear)).result.Success?
    requires PlainNames(SelectFromYear(AllAdvisories(fetch).value, minYear))
    requires AdvisoryFilesHoldMappings(SyncOutcome(files, fetch, minYear).files,
                                       SelectFromYear(AllAdvisories(fetch).value, minYear))
    ensures var sel := SelectFromYear(AllAdvisories(fetch).value, minYear);
            var after := SyncOutcome(files, fetch, minYear).files;
            SyncOutcome(after, fetch, minYear) ==
              Outcome(after, if AllPackages(sel) == [] then Failure(NoMethodError("files_written")) else Success([]))
  {
    var advs := AllAdvisories(fetch).value;
    var sel := SelectFromYear(advs, minYear);
    assert SyncOutcome(files, fetch, minYear).files == SyncAdvisories(files, sel).files;
    AllAdvisoriesDistinctIds(fetch);
    SelectKeepsDistinctIds(advs, minYear);
    SecondSyncOfAdvisoriesWritesNothing(files, sel);
    WrittenNones(|AllPackages(sel)|);
  }

  /** Syncing advisories with distinct primary ids and plain names a second
      time, after a first sync that raised nothing and left a mapping in
      every package file, leaves the files alone and returns nil for every
      package. */
  lemma SecondSyncOfAdvisoriesWritesNothing(files: Files, advs: seq<Advisory>)
    requires DistinctIds(advs) && PlainNames(advs)
    requires SyncAdvisories(files, advs).result.Success?
    requires AdvisoryFilesHoldMappings(SyncAdvisories(files, advs).files, advs)
    ensures var after := SyncAdvisories(files, advs).files;
            SyncAdvisories(after, advs) == Run(after, Success(Nones(|AllPackages(advs)|)))
  {
    var ps := AllPackages(advs);
    var after := SyncAdvisories(files, advs).files;
    AllPackagesDistinctFiles(advs);
    AllPackagesHoldMappings(after, advs);
    SyncAdvisoriesIsSyncPackages(files, advs);
    SyncPackagesSettles(files, ps);
    SettledPackagesWriteNothing(after, ps);
    SyncAdvisoriesIsSyncPackages(after, advs);
  }

  /** `select!` keeps an order-preserving part of the advisories, so their
      primary ids stay distinct. */
  lemma {:induction false} SelectKeepsDistinctIds(advs: seq<Advisory>, minYear: int)
    requires DistinctIds(advs)
    ensures DistinctIds(SelectFromYear(advs, minYear))
  {
    if advs != [] {
      var pre := advs[..|advs| - 1];
      var last := advs[|advs| - 1];
      assert DistinctIds(pre) by {
        forall i | 0 <= i < |pre| ensures pre[i] == advs[i] {
        }
      }
      SelectKeepsDistinctIds(pre, minYear);
      var kept := SelectFromYear(pre, minYear);
      if CveAfterYear(last.advisory, minYear) {
        var s := kept + [last];
        forall x | x in kept ensures PrimaryId(x.advisory) != PrimaryId(last.advisory) {
          var k :| 0 <= k < |pre| && pre[k] == x;
          assert advs[k] == x;
        }
        forall i, j | 0 <= i < j < |s| ensures PrimaryId(s[i].advisory) != PrimaryId(s[j].advisory) {
          if j < |kept| {
            assert s[i] == kept[i] && s[j] == kept[j];
          } else {
            assert s[i] == kept[i] && kept[i] in kept && s[j] == last;
          }
        }
        forall i | 0 <= i < |s| ensures PrimaryId(s[i].advisory).Some? {
          if i < |kept| {
            assert s[i] == kept[i];
          }
        }
      } else {
        assert SelectFromYear(advs, minYear) == kept;
      }
    }
  }

  /** A saved record whose every KEYS field is filled (none nil or false)
      merges to nil, because compact! removes nothing; update then replaces
      the record by a null document, and the next sync of the package raises. */
  lemma FilledRecordIsReplacedByNull(files: Files, p: Package, path: string)
    requires Filename(p) == Success(path) && path in files && files[path].document.Mapping?
    requires forall k :: k in Keys ==> Truthy(Get(files[path].document.record, k))
    ensures SyncPackageStep(files, p) == Step(files[path := File(NullDocument, None)], Success(Some(path)))
    ensures SyncPackageStep(SyncPackageStep(files, p).files, p).result == Failure(NoMethodError("saved_data"))
  {
    var saved := files[path].document.record;
    MergeOutcomes(Keys, saved, PackageHash(p));
    assert !NeedsFresh(Keys, saved) by {
      forall i | 0 <= i < |Keys| ensures Truthy(Get(saved, Keys[i])) {
        assert Keys[i] in Keys;
      }
    }
  }

  /** The paths compact! keeps are exactly the written ones. */
  lemma {:induction false} WrittenPaths(results: seq<Option<string>>, q: string)
    ensures q in Written(results) <==> Some(q) in results
    ensures |Written(results)| <= |results|
  {
    if results != [] {
      var pre := results[..|results| - 1];
      WrittenPaths(pre, q);
      assert results == pre + [results[|results| - 1]];
    }
  }

  /** The whole sync raises on `files_written.empty?` exactly when it got
      that far and every package result was a path, including when there
      was nothing to sync; otherwise it returns the written paths. */
  lemma SyncOutcomeCases(files: Files, fetch: Option<string> -> Response, minYear: int)
    ensures var o := SyncOutcome(files, fetch, minYear);
            var advs := AllAdvisories(fetch);
            advs.Success? && SyncAdvisories(files, SelectFromYear(advs.value, minYear)).result.Success? ==>
              var results := SyncAdvisories(files, SelectFromYear(advs.value, minYear)).result.value;
              && (o.result == Failure(NoMethodError("files_written")) <==> None !in results)
              && (o.result.Success? ==> forall q :: q in o.result.value <==> Some(q) in results)
  {
    var advs := AllAdvisories(fetch);
    if advs.Success? {
      var run := SyncAdvisories(files, SelectFromYear(advs.value, minYear));
      if run.result.Success? {
        forall q {
          WrittenPaths(run.result.value, q);
        }
      }
    }
  }
}

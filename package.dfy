/** GitHubAdvisory::Package and the per-package parts of GitHubAdvisory:
    the path of the advisory file, the derived rubysec record (to_h), the
    KEYS-ordered merge with a saved record (merge_data) and the
    patched-version constraints. */
module PackageRecords {
  import opened Values
  import opened Text
  import opened Advisories

  /** A gem affected by an advisory. */
  datatype Package = Package(advisory: Advisory, name: string)

  // ---------------------------------------------------------------------
  // Packages and file names

  function VulnerabilityNames(vs: seq<Vulnerability>): seq<string> {
    seq(|vs|, i requires 0 <= i < |vs| => vs[i].package.name)
  }

  /** The distinct package names of the advisory's vulnerabilities. */
  function PackageNames(a: Advisory): (names: seq<string>)
    ensures NoDuplicates(names)
    ensures forall n :: n in names <==>
              exists i :: 0 <= i < |a.vulnerabilities| && a.vulnerabilities[i].package.name == n
  {
    var all := VulnerabilityNames(a.vulnerabilities);
    assert forall i :: 0 <= i < |all| ==> all[i] == a.vulnerabilities[i].package.name;
    Dedup(all)
  }

  /** GitHubAdvisory#packages: one Package per distinct gem name. */
  function Packages(a: Advisory): (ps: seq<Package>)
    ensures |ps| == |PackageNames(a)|
    ensures forall i :: 0 <= i < |ps| ==> ps[i] == Package(a, PackageNames(a)[i])
  {
    seq(|PackageNames(a)|, i requires 0 <= i < |PackageNames(a)| => Package(a, PackageNames(a)[i]))
  }

  /** Every package belongs to the advisory, no two share a gem name, and a
      gem has a package exactly when some vulnerability names it. */
  lemma PackagesOnePerGem(a: Advisory)
    ensures var ps := Packages(a);
            var vs := a.vulnerabilities;
            && (forall i :: 0 <= i < |ps| ==> ps[i].advisory == a)
            && (forall i, j :: 0 <= i < j < |ps| ==> ps[i].name != ps[j].name)
            && (forall i :: 0 <= i < |ps| ==> exists k :: 0 <= k < |vs| && vs[k].package.name == ps[i].name)
            && (forall k :: 0 <= k < |vs| ==> exists i :: 0 <= i < |ps| && ps[i].name == vs[k].package.name)
  {
    var ps := Packages(a);
    var vs := a.vulnerabilities;
    forall i | 0 <= i < |ps| ensures exists k :: 0 <= k < |vs| && vs[k].package.name == ps[i].name {
      PackageIsNamed(a, i);
    }
    forall k | 0 <= k < |vs| ensures exists i :: 0 <= i < |ps| && ps[i].name == vs[k].package.name {
      GemHasPackage(a, k);
    }
  }

  lemma PackageIsNamed(a: Advisory, i: nat)
    requires i < |Packages(a)|
    ensures exists k :: 0 <= k < |a.vulnerabilities| && a.vulnerabilities[k].package.name == Packages(a)[i].name
  {
    var names := PackageNames(a);
    assert Packages(a)[i].name == names[i] && names[i] in names;
  }

  lemma GemHasPackage(a: Advisory, k: nat)
    requires k < |a.vulnerabilities|
    ensures exists i :: 0 <= i < |Packages(a)| && Packages(a)[i].name == a.vulnerabilities[k].package.name
  {
    var names := PackageNames(a);
    var n := a.vulnerabilities[k].package.name;
    assert n in names;
    var i :| 0 <= i < |names| && names[i] == n;
    assert Packages(a)[i].name == n;
  }

  /** The packages come in the order in which their names first appear
      among the vulnerabilities. */
  lemma PackagesInFirstAppearanceOrder(a: Advisory, i: nat, j: nat)
    requires i < j < |Packages(a)|
    ensures var all := VulnerabilityNames(a.vulnerabilities);
            Packages(a)[i].name in all && Packages(a)[j].name in all &&
            FirstIndex(all, Packages(a)[i].name) < FirstIndex(all, Packages(a)[j].name)
  {
    var all := VulnerabilityNames(a.vulnerabilities);
    assert Dedup(all)[i] in Dedup(all) && Dedup(all)[j] in Dedup(all);
    DedupKeepsFirstOccurrenceOrder(all, i, j);
  }

  function StripTrailingSeparators(s: string): string {
    if s != [] && s[|s| - 1] == '/' then StripTrailingSeparators(s[..|s| - 1]) else s
  }

  /** One step of File.join: a part that starts with a separator replaces
      the separators the path ends with; otherwise one separator is added
      unless the path already ends with one. */
  function JoinStep(path: string, part: string): string {
    if part != [] && part[0] == '/' then StripTrailingSeparators(path) + part
    else if path != [] && path[|path| - 1] == '/' then path + part
    else path + "/" + part
  }

  /** File.join. */
  function FileJoin(parts: seq<string>): string {
    if parts == [] then ""
    else if |parts| == 1 then parts[0]
    else JoinStep(FileJoin(parts[..|parts| - 1]), parts[|parts| - 1])
  }

  /** Package#filename: `gems/<name>/<primary id>.yml`; it raises where
      primary_id does. */
  function Filename(p: Package): Result<string, Error> {
    var id := PrimaryId(p.advisory.advisory);
    if id.None? then Failure(NoMethodError("ghsa_id"))
    else Success(FileJoin(["gems", p.name, id.value + ".yml"]))
  }

  /** A non-empty path segment without separators. */
  predicate PlainSegment(s: string) {
    s != [] && '/' !in s
  }

  /** For a plain gem name and an id that does not start with a separator,
      the file name is the plain concatenation. */
  lemma FilenameShape(p: Package)
    requires PlainSegment(p.name)
    requires PrimaryId(p.advisory.advisory).Some? && !StartsWith(PrimaryId(p.advisory.advisory).value, "/")
    ensures Filename(p) == Success("gems/" + p.name + "/" + PrimaryId(p.advisory.advisory).value + ".yml")
  {
    var id := PrimaryId(p.advisory.advisory).value;
    var parts := ["gems", p.name, id + ".yml"];
    assert parts[..2][..1] == ["gems"];
    assert p.name[0] in p.name && p.name[|p.name| - 1] in p.name;
    assert FileJoin(parts[..2]) == "gems/" + p.name;
    var first := FileJoin(parts[..2]);
    var x := id + ".yml";
    assert x != [] && x[0] != '/' by {
      if id != [] {
        assert x[0] == id[0] && id[..1] == [id[0]];
      } else {
        assert x[0] == '.';
      }
    }
    assert first[|first| - 1] == p.name[|p.name| - 1];
    assert JoinStep(first, x) == first + "/" + x;
    assert FileJoin(parts) == JoinStep(first, parts[2]);
    assert first + "/" + x == "gems/" + p.name + "/" + id + ".yml";
  }

  lemma SplitAtSeparator(a: string, x: string, b: string, y: string)
    requires '/' !in a && '/' !in b && a + "/" + x == b + "/" + y
    ensures a == b && x == y
  {
    var s := a + "/" + x;
    if |a| < |b| {
      CharOfLongerPrefix(b, y, a, x);
      assert false;
    } else if |b| < |a| {
      CharOfLongerPrefix(a, x, b, y);
      assert false;
    } else {
      assert a == s[..|a|] && b == (b + "/" + y)[..|b|];
      assert x == s[|a| + 1..] && y == (b + "/" + y)[|b| + 1..];
    }
  }

  lemma CharOfLongerPrefix(a: string, x: string, b: string, y: string)
    requires |b| < |a|
    ensures (a + "/" + x)[|b|] in a && (b + "/" + y)[|b|] == '/'
  {
    assert (a + "/" + x)[|b|] == a[|b|];
  }

  /** Different packages or different primary ids never share a file. */
  lemma FilenameInjective(p: Package, q: Package)
    requires PlainSegment(p.name) && PlainSegment(q.name)
    requires PrimaryId(p.advisory.advisory).Some? && !StartsWith(PrimaryId(p.advisory.advisory).value, "/")
    requires PrimaryId(q.advisory.advisory).Some? && !StartsWith(PrimaryId(q.advisory.advisory).value, "/")
    requires Filename(p) == Filename(q)
    ensures p.name == q.name && PrimaryId(p.advisory.advisory) == PrimaryId(q.advisory.advisory)
  {
    var i := PrimaryId(p.advisory.advisory).value;
    var j := PrimaryId(q.advisory.advisory).value;
    FilenameShape(p);
    FilenameShape(q);
    Regroup(p.name, i);
    Regroup(q.name, j);
    DropPrefix("gems/", p.name + "/" + (i + ".yml"), q.name + "/" + (j + ".yml"));
    SplitAtSeparator(p.name, i + ".yml", q.name, j + ".yml");
    DropSuffix(i, j, ".yml");
  }

  lemma Regroup(name: string, id: string)
    ensures "gems/" + name + "/" + id + ".yml" == "gems/" + (name + "/" + (id + ".yml"))
  {
  }

  lemma DropPrefix(pre: string, s: string, t: string)
    requires pre + s == pre + t
    ensures s == t
  {
    assert s == (pre + s)[|pre|..];
    assert t == (pre + t)[|pre|..];
  }

  lemma DropSuffix(s: string, t: string, suf: string)
    requires s + suf == t + suf
    ensures s == t
  {
    assert s == (s + suf)[..|s|];
    assert t == (t + suf)[..|t|];
  }

  // ---------------------------------------------------------------------
  // The derived record

  const RailsGems: seq<string> := [
    "actioncable", "actionmailbox", "actionmailer", "actionpack", "actiontext",
    "actionview", "activejob", "activemodel", "activerecord", "activestorage",
    "activesupport", "railties"]

  /** Package#framework as written: the `when` clause holds the array of
      Rails gem names itself, and Array#=== compares that whole array with
      the name. */
  function Framework(name: string): Value {
    var railsGems := List(seq(|RailsGems|, i requires 0 <= i < |RailsGems| => Str(RailsGems[i])));
    if railsGems == Str(name) then Str("rails") else Nil
  }

  /** An array never equals a string, so framework is nil for every gem,
      Rails gems included. */
  lemma FrameworkIsNil(name: string)
    ensures Framework(name) == Nil
  {
  }

  /** Package#to_h: `gem` and `framework`, then the advisory's to_h. */
  function PackageHash(p: Package): Result<Record, Error> {
    var h := AdvisoryHash(p.advisory.advisory);
    if h.Failure? then Failure(h.error)
    else Success(HashMerge(PackageBase(p.name), h.value))
  }

  /** No key of the record reads `false`. */
  ghost predicate NoFalseLookups(r: Record) {
    forall k :: Get(r, k) != Bool(false)
  }

  /** Package#to_h fails as the advisory's to_h does; otherwise `gem` is the
      name, `framework` is nil, every other key reads as in the advisory's
      to_h, and nothing reads false. */
  lemma PackageHashFields(p: Package)
    ensures PackageHash(p).Failure? <==> AdvisoryHash(p.advisory.advisory).Failure?
    ensures PackageHash(p).Failure? ==> PackageHash(p).error == AdvisoryHash(p.advisory.advisory).error
    ensures PackageHash(p).Success? ==>
      var h := PackageHash(p).value;
      && Get(h, "gem") == Str(p.name)
      && Get(h, "framework") == Nil
      && (forall k :: k != "gem" ==> Get(h, k) == Get(AdvisoryHash(p.advisory.advisory).value, k))
      && NoFalseLookups(h)
  {
    if PackageHash(p).Success? {
      var ah := AdvisoryHash(p.advisory.advisory).value;
      var h := PackageHash(p).value;
      AdvisoryHashOmitsPackageKeys(p.advisory.advisory);
      assert NoFalseLookups(h) by {
        forall k ensures Get(h, k) != Bool(false) {
          PackageHashGet(p, k);
        }
      }
      forall k | k != "gem" ensures Get(h, k) == Get(ah, k) {
        PackageHashGet(p, k);
      }
      PackageHashGet(p, "gem");
      PackageHashGet(p, "framework");
    }
  }

  /** The two fields Package#to_h puts before the advisory's. */
  function PackageBase(name: string): Record {
    [("gem", Str(name)), ("framework", Framework(name))]
  }

  lemma PackageBaseMap(name: string)
    ensures ToMap(PackageBase(name)) == map["gem" := Str(name), "framework" := Nil]
  {
    var base := PackageBase(name);
    FrameworkIsNil(name);
    assert base[..1] == [base[0]] && base[..1][..0] == [];
    assert ToMap(base[..1][..0]) == map[];
    assert ToMap(base[..1]) == map["gem" := Str(name)];
  }

  /** The advisory's to_h has neither a `gem` nor a `framework` key, and no false value. */
  lemma AdvisoryHashOmitsPackageKeys(a: AdvisoryData)
    requires AdvisoryHash(a).Success?
    ensures forall k :: k in ToMap(AdvisoryHash(a).value) ==>
              k != "gem" && k != "framework" && ToMap(AdvisoryHash(a).value)[k] != Bool(false)
  {
    var ah := AdvisoryHash(a).value;
    forall k | k in ToMap(ah) ensures k != "gem" && k != "framework" && ToMap(ah)[k] != Bool(false) {
      ToMapFrom(ah, k);
      var i :| 0 <= i < |ah| && ah[i] == (k, ToMap(ah)[k]);
      AdvisoryHashEntry(a, i);
    }
  }

  lemma PackageHashGet(p: Package, k: string)
    requires PackageHash(p).Success?
    ensures var ah := AdvisoryHash(p.advisory.advisory).value;
            Get(PackageHash(p).value, k) ==
              if k in ToMap(ah) then ToMap(ah)[k]
              else if k == "gem" then Str(p.name)
              else Nil
  {
    var ah := AdvisoryHash(p.advisory.advisory).value;
    PackageBaseMap(p.name);
    GetHashMerge(PackageBase(p.name), ah, k);
    AdvisoryHashOmitsPackageKeys(p.advisory.advisory);
  }

  /** Package#to_h has no field besides `gem` and the advisory's seven. */
  lemma PackageHashOmits(p: Package, k: string)
    requires PackageHash(p).Success? && k != "gem" && k !in AdvisoryKeys
    ensures Get(PackageHash(p).value, k) == Nil
  {
    var ah := AdvisoryHash(p.advisory.advisory).value;
    PackageHashGet(p, k);
    ToMapHasKey(ah, k);
    AdvisoryHashShape(p.advisory.advisory);
  }

  /** GitHubAdvisory::Package::KEYS: the fields of an advisory file, in
      the order they are written. */
  const Keys: seq<string> := [
    "gem", "library", "framework", "platform", "cve", "osvdb", "ghsa", "url", "title", "date",
    "description", "cvss_v2", "cvss_v3", "unaffected_versions", "patched_versions", "related", "notes"]

  /** Where the fields the sync writes itself sit in KEYS. */
  lemma KeyPositions()
    ensures Keys[0] == "gem" && Keys[1] == "library" && Keys[7] == "url"
    ensures Keys[12] == "cvss_v3" && Keys[13] == "unaffected_versions"
    ensures Keys[14] == "patched_versions" && Keys[15] == "related"
  {
  }

  lemma KeysDistinct()
    ensures NoDuplicates(Keys)
  {
  }

  // ---------------------------------------------------------------------
  // merge_data

  /** The freshly derived record; when to_h raises and is never needed,
      nothing is read from it. */
  function FreshRecord(derived: Result<Record, Error>): Record {
    if derived.Success? then derived.value else []
  }

  /** `saved_data[key] || to_h[key]`. */
  function MergedValue(saved: Record, derived: Record, k: string): Value {
    if Truthy(Get(saved, k)) then Get(saved, k) else Get(derived, k)
  }

  /** `data` after a loop over `keys` that sets each key, before compact!. */
  function Filled(keys: seq<string>, saved: Record, derived: Record): Record {
    seq(|keys|, i requires 0 <= i < |keys| => (keys[i], MergedValue(saved, derived, keys[i])))
  }

  /** Some field of `keys` in the saved record is nil or false, so to_h is evaluated. */
  predicate NeedsFresh(keys: seq<string>, saved: Record) {
    exists i :: 0 <= i < |keys| && !Truthy(Get(saved, keys[i]))
  }

  /** merge_data over the field list `keys`, for a package whose to_h is
      `derived`: raises if to_h is needed and raises; otherwise the filled
      record after compact!, which is nil when no field was nil. */
  function Merge(keys: seq<string>, saved: Record, derived: Result<Record, Error>): Result<Option<Record>, Error> {
    if NeedsFresh(keys, saved) && derived.Failure? then Failure(derived.error)
    else Success(CompactBang(Filled(keys, saved, FreshRecord(derived))))
  }

  /** Package#merge_data: the merge over KEYS. */
  function MergeResult(saved: Record, derived: Result<Record, Error>): Result<Option<Record>, Error> {
    Merge(Keys, saved, derived)
  }

  lemma FilledKeys(keys: seq<string>, saved: Record, derived: Record)
    requires NoDuplicates(keys)
    ensures KeysOf(Filled(keys, saved, derived)) == keys
    ensures UniqueKeys(Filled(keys, saved, derived))
  {
    assert KeysOf(Filled(keys, saved, derived)) == keys;
  }

  /** merge_data: fill `data` key by key in KEYS order, each from the saved
      record or else from to_h (evaluated only when needed), then compact!. */
  method MergeData(p: Package, saved: Record) returns (r: Result<Option<Record>, Error>)
    ensures r == MergeResult(saved, PackageHash(p))
  {
    KeysDistinct();
    r := MergeFields(Keys, p, saved);
  }

  /** The loop of merge_data over the field list `keys`. */
  method MergeFields(keys: seq<string>, p: Package, saved: Record) returns (r: Result<Option<Record>, Error>)
    requires NoDuplicates(keys)
    ensures r == Merge(keys, saved, PackageHash(p))
  {
    var data := FillFields(keys, p, saved);
    if data.Failure? {
      r := Failure(data.error);
      return;
    }
    r := Success(CompactBang(data.value));
  }

  /** The loop of merge_data before compact!: each key in turn takes the
      saved value when it is truthy, else the derived one; the first key
      that needs to_h when to_h raises ends the loop with that exception. */
  method FillFields(keys: seq<string>, p: Package, saved: Record) returns (r: Result<Record, Error>)
    requires NoDuplicates(keys)
    ensures r.Failure? <==> NeedsFresh(keys, saved) && PackageHash(p).Failure?
    ensures r.Failure? ==> r.error == PackageHash(p).error
    ensures r.Success? ==> r.value == Filled(keys, saved, FreshRecord(PackageHash(p)))
  {
    ghost var filled := Filled(keys, saved, FreshRecord(PackageHash(p)));
    FilledKeys(keys, saved, FreshRecord(PackageHash(p)));
    var data: Record := [];
    var i := 0;
    while i < |keys|
      invariant 0 <= i <= |keys|
      invariant data == filled[..i]
      invariant PackageHash(p).Failure? ==> forall j :: 0 <= j < i ==> Truthy(Get(saved, keys[j]))
    {
      var key := keys[i];
      var value := Get(saved, key);
      if !Truthy(value) {
        var derived := PackageHash(p);
        if derived.Failure? {
          r := Failure(derived.error);
          return;
        }
        value := Get(derived.value, key);
      }
      assert KeysOf(data) == keys[..i];
      assert key !in keys[..i];
      PutNew(data, key, value);
      data := Put(data, key, value);
      assert filled[..i + 1] == filled[..i] + [filled[i]];
      i := i + 1;
    }
    assert data == filled;
    if PackageHash(p).Failure? {
      assert !NeedsFresh(keys, saved);
    }
    r := Success(data);
  }

  /** The merge yields only the listed keys, each once and in list order,
      and no nil value. */
  lemma MergeShape(keys: seq<string>, saved: Record, derived: Result<Record, Error>)
    requires NoDuplicates(keys)
    requires Merge(keys, saved, derived).Success? && Merge(keys, saved, derived).value.Some?
    ensures var m := Merge(keys, saved, derived).value.value;
            && UniqueKeys(m)
            && (forall i :: 0 <= i < |m| ==> m[i].1 != Nil && m[i].0 in keys)
            && (forall i, j :: 0 <= i < j < |m| ==> FirstIndex(keys, m[i].0) < FirstIndex(keys, m[j].0))
  {
    var d := Filled(keys, saved, FreshRecord(derived));
    assert Merge(keys, saved, derived).value.value == Compact(d);
    FilledKeys(keys, saved, FreshRecord(derived));
    CompactShape(keys, d);
  }

  /** Compacting a record whose keys are exactly `keys` keeps each key once, in list order. */
  lemma CompactShape(keys: seq<string>, d: Record)
    requires NoDuplicates(keys) && KeysOf(d) == keys && UniqueKeys(d)
    ensures var m := Compact(d);
            && UniqueKeys(m)
            && (forall i :: 0 <= i < |m| ==> m[i].0 in keys)
            && (forall i, j :: 0 <= i < j < |m| ==> FirstIndex(keys, m[i].0) < FirstIndex(keys, m[j].0))
  {
    var m := Compact(d);
    CompactUniqueKeys(d);
    forall i | 0 <= i < |m| ensures m[i].0 in keys {
      var x :| 0 <= x < |d| && d[x] == m[i];
      assert KeysOf(d)[x] == m[i].0;
    }
    forall i, j | 0 <= i < j < |m| ensures FirstIndex(keys, m[i].0) < FirstIndex(keys, m[j].0) {
      CompactInOrder(d, i, j);
      var a, b :| 0 <= a < b < |d| && d[a] == m[i] && d[b] == m[j];
      assert KeysOf(d)[a] == m[i].0 && KeysOf(d)[b] == m[j].0;
      FirstIndexDistinct(keys, a);
      FirstIndexDistinct(keys, b);
    }
  }

  /** Every listed field reads the saved value when that is neither nil nor
      false, and the freshly derived value otherwise, so a saved value is
      never replaced; keys not listed are dropped. */
  lemma MergeLookups(keys: seq<string>, saved: Record, derived: Result<Record, Error>, k: string)
    requires NoDuplicates(keys)
    requires Merge(keys, saved, derived).Success? && Merge(keys, saved, derived).value.Some?
    ensures var m := Merge(keys, saved, derived).value.value;
            && (k in keys && Truthy(Get(saved, k)) ==> Get(m, k) == Get(saved, k))
            && (k in keys && !Truthy(Get(saved, k)) ==> Get(m, k) == Get(FreshRecord(derived), k))
            && (k !in keys ==> Get(m, k) == Nil)
  {
    var d := Filled(keys, saved, FreshRecord(derived));
    FilledKeys(keys, saved, FreshRecord(derived));
    CompactKeepsLookups(d, k);
    if k in keys {
      var a :| 0 <= a < |keys| && keys[a] == k;
      GetEntry(d, a);
    } else {
      GetAbsent(d, k);
    }
  }

  /** The merge raises exactly when to_h is needed and raises, and answers
      nil exactly when no field would be nil (compact! removed nothing). */
  lemma MergeOutcomes(keys: seq<string>, saved: Record, derived: Result<Record, Error>)
    ensures Merge(keys, saved, derived).Failure? <==>
            derived.Failure? && exists k :: k in keys && !Truthy(Get(saved, k))
    ensures Merge(keys, saved, derived) == Success(None) <==>
            forall k :: k in keys ==> MergedValue(saved, FreshRecord(derived), k) != Nil
  {
    var d := Filled(keys, saved, FreshRecord(derived));
    if exists k :: k in keys && !Truthy(Get(saved, k)) {
      var k :| k in keys && !Truthy(Get(saved, k));
      var i :| 0 <= i < |keys| && keys[i] == k;
      assert !Truthy(Get(saved, keys[i]));
    }
    if HasNil(d) {
      var i :| 0 <= i < |d| && d[i].1 == Nil;
      assert keys[i] in keys;
    }
    if NeedsFresh(keys, saved) {
      var i :| 0 <= i < |keys| && !Truthy(Get(saved, keys[i]));
      assert keys[i] in keys;
      if derived.Failure? {
        assert MergedValue(saved, FreshRecord(derived), keys[i]) == Nil;
      }
    }
    if forall k :: k in keys ==> MergedValue(saved, FreshRecord(derived), k) != Nil {
      forall i | 0 <= i < |d| ensures d[i].1 != Nil {
        assert keys[i] in keys;
      }
    }
    if Merge(keys, saved, derived) == Success(None) {
      assert !HasNil(d);
      forall k | k in keys ensures MergedValue(saved, FreshRecord(derived), k) != Nil {
        var i :| 0 <= i < |keys| && keys[i] == k;
        assert d[i].1 == MergedValue(saved, FreshRecord(derived), k);
      }
    }
  }

  /** A field that reads nil in both records stays nil, so compact! removes it
      and the merge answers a record. */
  lemma MergeWithNilField(keys: seq<string>, saved: Record, derived: Result<Record, Error>, k: string)
    requires derived.Success? && k in keys
    requires MergedValue(saved, derived.value, k) == Nil
    ensures Merge(keys, saved, derived).Success? && Merge(keys, saved, derived).value.Some?
  {
    var i :| 0 <= i < |keys| && keys[i] == k;
    assert Filled(keys, saved, FreshRecord(derived))[i].1 == Nil;
  }

  /** Merging the merged record again, with the same to_h, gives it back. */
  lemma MergeIdempotent(keys: seq<string>, saved: Record, derived: Result<Record, Error>)
    requires NoDuplicates(keys)
    requires Merge(keys, saved, derived).Success? && Merge(keys, saved, derived).value.Some?
    ensures var m := Merge(keys, saved, derived).value.value;
            Merge(keys, m, derived) == Success(Some(m))
  {
    var fr := FreshRecord(derived);
    var d := Filled(keys, saved, fr);
    var m := Compact(d);
    FilledKeys(keys, saved, fr);
    assert HasNil(d);
    var i0 :| 0 <= i0 < |d| && d[i0].1 == Nil;
    assert NeedsFresh(keys, saved) by {
      assert !Truthy(Get(saved, keys[i0]));
    }
    forall i | 0 <= i < |keys| ensures Get(m, keys[i]) == d[i].1 {
      CompactKeepsLookups(d, keys[i]);
      GetEntry(d, i);
    }
    assert NeedsFresh(keys, m) by {
      assert !Truthy(Get(m, keys[i0]));
    }
    assert Filled(keys, m, fr) == d;
  }

  /** A saved record that has only listed keys and no nil value, misses
      some listed field, and reads like to_h wherever it is false, is
      merged to a record equal to it as a Hash. */
  lemma MergeSettled(keys: seq<string>, saved: Record, derived: Result<Record, Error>)
    requires NoDuplicates(keys) && derived.Success?
    requires forall i :: 0 <= i < |saved| ==> saved[i].1 != Nil && saved[i].0 in keys
    requires forall k :: k in keys && !Truthy(Get(saved, k)) ==> Get(saved, k) == Get(derived.value, k)
    requires exists k :: k in keys && Get(saved, k) == Nil
    ensures Merge(keys, saved, derived).Success? && Merge(keys, saved, derived).value.Some?
    ensures SameHash(saved, Merge(keys, saved, derived).value.value)
  {
    var k0 :| k0 in keys && Get(saved, k0) == Nil;
    var i0 :| 0 <= i0 < |keys| && keys[i0] == k0;
    var d := Filled(keys, saved, derived.value);
    assert NeedsFresh(keys, saved) by {
      assert !Truthy(Get(saved, keys[i0]));
    }
    assert d[i0].1 == Nil;
    var m := Compact(d);
    forall k ensures Get(m, k) == Get(saved, k) {
      MergeLookups(keys, saved, derived, k);
      if k !in keys && k in ToMap(saved) {
        ToMapFrom(saved, k);
      }
    }
    forall k ensures k in ToMap(m) <==> k in ToMap(saved) {
      PresentIffNonNil(m, k);
      PresentIffNonNil(saved, k);
    }
    forall k | k in ToMap(m) ensures ToMap(m)[k] == ToMap(saved)[k] {
      assert Get(m, k) == Get(saved, k);
    }
    assert ToMap(m) == ToMap(saved);
  }

  /** A saved record MergeSettled applies to, for the KEYS merge. */
  ghost predicate SettlesUnderMerge(saved: Record, derived: Record) {
    && (forall i :: 0 <= i < |saved| ==> saved[i].1 != Nil && saved[i].0 in Keys)
    && (forall k :: k in Keys && !Truthy(Get(saved, k)) ==> Get(saved, k) == Get(derived, k))
    && (exists k :: k in Keys && Get(saved, k) == Nil)
  }

  /** MergeSettled for the KEYS merge. */
  lemma MergeResultSettled(saved: Record, derived: Result<Record, Error>)
    requires derived.Success? && SettlesUnderMerge(saved, derived.value)
    ensures MergeResult(saved, derived).Success? && MergeResult(saved, derived).value.Some?
    ensures SameHash(saved, MergeResult(saved, derived).value.value)
  {
    KeysDistinct();
    MergeSettled(Keys, saved, derived);
  }

  // ---------------------------------------------------------------------
  // Patched versions

  /** The firstPatchedVersion identifiers of gem `name`'s vulnerabilities, in order. */
  function PatchedIdentifiers(vs: seq<Vulnerability>, name: string): seq<string> {
    if vs == [] then []
    else
      var v := vs[|vs| - 1];
      PatchedIdentifiers(vs[..|vs| - 1], name) +
        (if v.package.name == name && v.firstPatchedVersion.Some? then [v.firstPatchedVersion.value] else [])
  }

  /** A version is collected exactly when some vulnerability of the gem has
      it as first patched version. */
  lemma {:induction false} PatchedIdentifiersMembership(vs: seq<Vulnerability>, name: string, x: string)
    ensures x in PatchedIdentifiers(vs, name) <==>
            exists i :: 0 <= i < |vs| && vs[i].package.name == name && vs[i].firstPatchedVersion == Some(x)
  {
    if vs != [] {
      var pre := vs[..|vs| - 1];
      PatchedIdentifiersMembership(pre, name, x);
      if exists i :: 0 <= i < |pre| && pre[i].package.name == name && pre[i].firstPatchedVersion == Some(x) {
        var i :| 0 <= i < |pre| && pre[i].package.name == name && pre[i].firstPatchedVersion == Some(x);
        assert vs[i] == pre[i];
      }
      if exists i :: 0 <= i < |vs| && vs[i].package.name == name && vs[i].firstPatchedVersion == Some(x) {
        var i :| 0 <= i < |vs| && vs[i].package.name == name && vs[i].firstPatchedVersion == Some(x);
        if i < |pre| {
          assert pre[i] == vs[i];
        }
      }
    }
  }

  /** first_patched_versions_for: the collected versions, sorted. */
  function FirstPatchedVersions(a: Advisory, p: Package): seq<string> {
    SortStrings(PatchedIdentifiers(a.vulnerabilities, p.name))
  }

  /** first_patched_versions_for: collect in order, then Array#sort. The
      result is sorted in String order and holds every collected version,
      duplicates included. */
  method FirstPatchedVersionsFor(a: Advisory, p: Package) returns (versions: seq<string>)
    ensures Sorted(versions)
    ensures multiset(versions) == multiset(PatchedIdentifiers(a.vulnerabilities, p.name))
    ensures versions == FirstPatchedVersions(a, p)
  {
    var vs := a.vulnerabilities;
    var collected: seq<string> := [];
    var i := 0;
    while i < |vs|
      invariant 0 <= i <= |vs|
      invariant collected == PatchedIdentifiers(vs[..i], p.name)
    {
      assert vs[..i + 1][..i] == vs[..i];
      var v := vs[i];
      if v.package.name == p.name && v.firstPatchedVersion.Some? {
        collected := collected + [v.firstPatchedVersion.value];
      }
      i := i + 1;
    }
    assert vs[..|vs|] == vs;
    versions := SortStrings(collected);
  }

  /** The constraint list for sorted versions: "~> v" for every version but
      the last, then ">= " followed by the last (by nothing when there is none). */
  function Constraints(versions: seq<string>): seq<string> {
    if versions == [] then [">= "]
    else
      seq(|versions| - 1, i requires 0 <= i < |versions| - 1 => "~> " + versions[i]) +
        [">= " + versions[|versions| - 1]]
  }

  /** Every constraint is a three-character operator and a version: "~> "
      on all but the last, ">= " on the last; reading the versions back
      gives the input, or the empty string alone for no versions. */
  lemma ConstraintsShape(versions: seq<string>)
    ensures var cs := Constraints(versions);
            && |cs| == (if versions == [] then 1 else |versions|)
            && (forall i :: 0 <= i < |cs| ==> |cs[i]| >= 3)
            && (forall i :: 0 <= i < |cs| - 1 ==> cs[i][..3] == "~> ")
            && cs[|cs| - 1][..3] == ">= "
            && (versions != [] ==> forall i :: 0 <= i < |cs| ==> cs[i][3..] == versions[i])
            && (versions == [] ==> cs[0][3..] == "")
  {
    var cs := Constraints(versions);
    if versions != [] {
      forall i | 0 <= i < |cs| ensures |cs[i]| >= 3 && cs[i][3..] == versions[i] {
        if i < |versions| - 1 {
          assert cs[i] == "~> " + versions[i];
        } else {
          assert cs[i] == ">= " + versions[i];
        }
      }
      forall i | 0 <= i < |cs| - 1 ensures cs[i][..3] == "~> " {
        assert cs[i] == "~> " + versions[i];
      }
      assert cs[|cs| - 1] == ">= " + versions[|versions| - 1];
    }
  }

  lemma ConstraintsFromPrefix(versions: seq<string>, pessimistic: seq<string>)
    requires |pessimistic| == (if versions == [] then 0 else |versions| - 1)
    requires forall k :: 0 <= k < |pessimistic| ==> pessimistic[k] == "~> " + versions[k]
    ensures Constraints(versions) == pessimistic + [">= " + (if versions == [] then "" else versions[|versions| - 1])]
  {
    if versions != [] {
      var cs := Constraints(versions);
      var ps := pessimistic + [">= " + versions[|versions| - 1]];
      assert |cs| == |ps|;
      forall k | 0 <= k < |cs| ensures cs[k] == ps[k] {
      }
      assert cs == ps;
    } else {
      assert ">= " + "" == ">= ";
      assert pessimistic + [">= "] == [">= "];
    }
  }

  /** patched_versions_for: append "~> v" for all first patched versions but
      the last, then ">= " and the last. */
  method PatchedVersionsFor(a: Advisory, p: Package) returns (patched: seq<string>)
    ensures patched == Constraints(FirstPatchedVersions(a, p))
  {
    var versions := FirstPatchedVersionsFor(a, p);
    patched := [];
    var n := if |versions| == 0 then 0 else |versions| - 1;
    var i := 0;
    while i < n
      invariant 0 <= i <= n
      invariant |patched| == i && forall k :: 0 <= k < i ==> patched[k] == "~> " + versions[k]
    {
      patched := patched + ["~> " + versions[i]];
      i := i + 1;
    }
    var last := if versions == [] then "" else versions[|versions| - 1];
    ConstraintsFromPrefix(versions, patched);
    patched := patched + [">= " + last];
  }

  /** The sort is String order, not version order: "10.0" comes before "9.0". */
  lemma StringOrderIsNotVersionOrder()
    ensures SortStrings(["9.0", "10.0"]) == ["10.0", "9.0"]
  {
    var s := ["9.0", "10.0"];
    assert StrLe("10.0", "9.0");
    assert Sorted(["10.0", "9.0"]);
    assert multiset(["10.0", "9.0"]) == multiset(s);
    SortedPermutationIsUnique(SortStrings(s), ["10.0", "9.0"]);
  }

  /** Two patched versions give a pessimistic and an open constraint; none give [">= "]. */
  lemma ConstraintsExamples()
    ensures Constraints(["1.2.3", "1.5.0"]) == ["~> 1.2.3", ">= 1.5.0"]
    ensures Constraints([]) == [">= "]
  {
    var cs := Constraints(["1.2.3", "1.5.0"]);
    assert |cs| == 2 && cs[0] == "~> 1.2.3" && cs[1] == ">= 1.5.0";
  }

  /** The file is named by the full CVE identifier, prefix kept, while the
      record's `cve` field drops the "CVE-" prefix. */
  lemma FilenameKeepsCvePrefix(p: Package, cve: string)
    requires CveId(p.advisory.advisory) == Some("CVE-" + cve) && |cve| <= 17
    requires PlainSegment(p.name) && PackageHash(p).Success?
    ensures Filename(p) == Success("gems/" + p.name + "/CVE-" + cve + ".yml")
    ensures Get(PackageHash(p).value, "cve") == Str(cve)
  {
    CveFilename(p, cve);
    CveField(p.advisory.advisory, cve);
    PackageHashFields(p);
  }

  lemma CveFilename(p: Package, cve: string)
    requires CveId(p.advisory.advisory) == Some("CVE-" + cve) && PlainSegment(p.name)
    ensures Filename(p) == Success("gems/" + p.name + "/CVE-" + cve + ".yml")
  {
    var a := p.advisory.advisory;
    assert PrimaryId(a) == Some("CVE-" + cve);
    assert ("CVE-" + cve)[..1] == "C";
    FilenameShape(p);
    assert "gems/" + p.name + "/" + ("CVE-" + cve) + ".yml" == "gems/" + p.name + "/CVE-" + cve + ".yml";
  }

  lemma CveField(a: AdvisoryData, cve: string)
    requires CveId(a) == Some("CVE-" + cve) && |cve| <= 17 && AdvisoryHash(a).Success?
    ensures Get(AdvisoryHash(a).value, "cve") == Str(cve)
  {
    AdvisoryHashFields(a);
    assert ("CVE-" + cve)[4..] == cve;
  }
}

/** A GitHub advisory as the sync script reads it (GitHubAdvisory): the raw
    advisory object of the GraphQL response, the identifier lookups, the
    derived hash of rubysec fields (to_h) and the CVE-year filter. */
module Advisories {
  import opened Values
  import opened Text

  /** One entry of `advisory.identifiers`: `{type, value}`. */
  datatype Identifier = Identifier(kind: string, value: string)

  /** `advisory.cvss`: `{score, vectorString}`. */
  datatype Cvss = Cvss(score: Option<real>, vectorString: Option<string>)

  /** The `advisory` object of a securityVulnerabilities node; `references`
      holds the `url` of each `{url}` reference, in order. */
  datatype AdvisoryData = AdvisoryData(
    identifiers: seq<Identifier>,
    summary: Option<string>,
    description: Option<string>,
    severity: string,
    cvss: Cvss,
    references: seq<string>,
    publishedAt: Option<string>,
    withdrawnAt: Option<string>)

  datatype PackageRef = PackageRef(name: string, ecosystem: string)

  /** A securityVulnerabilities node without its `advisory` key. */
  datatype Vulnerability = Vulnerability(
    package: PackageRef,
    vulnerableVersionRange: string,
    firstPatchedVersion: Option<string>)

  /** A securityVulnerabilities node as the API returns it. */
  datatype Node = Node(vulnerability: Vulnerability, advisory: AdvisoryData)

  /** GitHubAdvisory: the advisory object of the first node seen for it, and
      the vulnerabilities collected for it from every node. */
  datatype Advisory = Advisory(advisory: AdvisoryData, vulnerabilities: seq<Vulnerability>)

  const NvdDetailPrefix := "https://nvd.nist.gov/vuln/detail/"

  /** `identifier_list.find { |id| id["type"] == kind }`, then its `value`. */
  function FindIdentifier(ids: seq<Identifier>, kind: string): (r: Option<string>)
    ensures r.None? <==> forall i :: 0 <= i < |ids| ==> ids[i].kind != kind
    ensures r.Some? ==> exists i :: 0 <= i < |ids| && ids[i] == Identifier(kind, r.value) &&
                                    forall j :: 0 <= j < i ==> ids[j].kind != kind
  {
    if ids == [] then None
    else if ids[0].kind == kind then Some(ids[0].value)
    else
      var r := FindIdentifier(ids[1..], kind);
      assert r.Some? ==> exists i :: 1 <= i < |ids| && ids[i] == Identifier(kind, r.value) &&
                                     forall j :: 0 <= j < i ==> ids[j].kind != kind by {
        if r.Some? {
          var i :| 0 <= i < |ids[1..]| && ids[1..][i] == Identifier(kind, r.value) &&
                   forall j :: 0 <= j < i ==> ids[1..][j].kind != kind;
          assert ids[i + 1] == Identifier(kind, r.value);
          forall j | 0 <= j < i + 1 ensures ids[j].kind != kind {
            if j > 0 { assert ids[j] == ids[1..][j - 1]; }
          }
        }
      }
      r
  }

  function CveId(a: AdvisoryData): Option<string> {
    FindIdentifier(a.identifiers, "CVE")
  }

  /** `ghsa_id`; None where the source calls `["value"]` on nil and raises. */
  function GhsaId(a: AdvisoryData): Option<string> {
    FindIdentifier(a.identifiers, "GHSA")
  }

  /** `primary_id`: the CVE identifier when there is one, else the GHSA one. */
  function PrimaryId(a: AdvisoryData): Option<string> {
    if CveId(a).Some? then CveId(a) else GhsaId(a)
  }

  /** The primary id is the value of the first CVE identifier when some
      identifier has type CVE, otherwise the first GHSA identifier's value,
      and there is none exactly when neither type occurs. */
  lemma PrimaryIdChoice(a: AdvisoryData)
    ensures PrimaryId(a).None? <==>
            forall i :: 0 <= i < |a.identifiers| ==> a.identifiers[i].kind != "CVE" && a.identifiers[i].kind != "GHSA"
    ensures PrimaryId(a).Some? ==>
            exists i :: 0 <= i < |a.identifiers| && a.identifiers[i].value == PrimaryId(a).value &&
                        (a.identifiers[i].kind == "CVE" || (a.identifiers[i].kind == "GHSA" && CveId(a).None?)) &&
                        forall j :: 0 <= j < i ==> a.identifiers[j].kind != a.identifiers[i].kind
  {
    var ids := a.identifiers;
    if CveId(a).Some? {
      var i :| 0 <= i < |ids| && ids[i] == Identifier("CVE", CveId(a).value) &&
               forall j :: 0 <= j < i ==> ids[j].kind != "CVE";
      assert ids[i].value == PrimaryId(a).value;
    } else if GhsaId(a).Some? {
      var i :| 0 <= i < |ids| && ids[i] == Identifier("GHSA", GhsaId(a).value) &&
               forall j :: 0 <= j < i ==> ids[j].kind != "GHSA";
      assert ids[i].value == PrimaryId(a).value;
    }
  }

  /** `withdrawn?`: a `withdrawnAt` timestamp is present. */
  predicate Withdrawn(a: AdvisoryData) {
    a.withdrawnAt.Some?
  }

  /** `published_day`: the parsed publication date, nil without one. */
  function PublishedDay(a: AdvisoryData): Value {
    if a.publishedAt.None? then Nil else Day(a.publishedAt.value)
  }

  /** `cvss`: nil without a vector string, else `score.to_f` (nil.to_f is 0.0). */
  function CvssScore(a: AdvisoryData): Value {
    if a.cvss.vectorString.None? then Nil
    else Float(if a.cvss.score.None? then 0.0 else a.cvss.score.value)
  }

  /** The first reference URL that is not an NVD detail page. */
  function FirstNonNvd(urls: seq<string>): (r: Option<string>)
    ensures r.None? <==> forall i :: 0 <= i < |urls| ==> StartsWith(urls[i], NvdDetailPrefix)
    ensures r.Some? ==> exists i :: 0 <= i < |urls| && urls[i] == r.value && !StartsWith(urls[i], NvdDetailPrefix) &&
                                    forall j :: 0 <= j < i ==> StartsWith(urls[j], NvdDetailPrefix)
  {
    if urls == [] then None
    else if !StartsWith(urls[0], NvdDetailPrefix) then Some(urls[0])
    else
      var r := FirstNonNvd(urls[1..]);
      assert r.Some? ==> exists i :: 0 <= i < |urls| && urls[i] == r.value && !StartsWith(urls[i], NvdDetailPrefix) &&
                                     forall j :: 0 <= j < i ==> StartsWith(urls[j], NvdDetailPrefix) by {
        if r.Some? {
          var i :| 0 <= i < |urls[1..]| && urls[1..][i] == r.value && !StartsWith(urls[1..][i], NvdDetailPrefix) &&
                   forall j :: 0 <= j < i ==> StartsWith(urls[1..][j], NvdDetailPrefix);
          assert urls[i + 1] == r.value;
          forall j | 0 <= j < i + 1 ensures StartsWith(urls[j], NvdDetailPrefix) {
            if j > 0 { assert urls[j] == urls[1..][j - 1]; }
          }
        }
      }
      r
  }

  /** `external_reference`; None where the source calls `["url"]` on nil. */
  function ExternalReference(a: AdvisoryData): Option<string> {
    FirstNonNvd(a.references)
  }

  /** Ruby's `s[from..to]` for 0 <= from: nil past the end, else at most
      `to - from + 1` characters. */
  function SliceRange(s: string, from: nat, to: nat): Value {
    if from > |s| then Nil
    else
      var end := if to + 1 < |s| then to + 1 else |s|;
      Str(s[from..if end < from then from else end])
  }

  /** Ruby's `s[from..]`: nil past the end. */
  function SliceFrom(s: string, from: nat): Value {
    if from > |s| then Nil else Str(s[from..])
  }

  function OptionalString(s: Option<string>): Value {
    if s.None? then Nil else Str(s.value)
  }

  /** The entries of GitHubAdvisory#to_h before `compact`. */
  function AdvisoryEntries(a: AdvisoryData, ghsa: string, url: string): Record {
    [ ("cve", if CveId(a).Some? then SliceRange(CveId(a).value, 4, 20) else Nil),
      ("date", PublishedDay(a)),
      ("ghsa", SliceFrom(ghsa, 5)),
      ("url", Str(url)),
      ("title", OptionalString(a.summary)),
      ("description", OptionalString(a.description)),
      ("cvss_v3", CvssScore(a)) ]
  }

  /** GitHubAdvisory#to_h: the rubysec fields derived from the advisory,
      without the nil ones. It raises when there is no GHSA identifier or
      every reference is an NVD page, in that order. */
  function AdvisoryHash(a: AdvisoryData): Result<Record, Error> {
    if GhsaId(a).None? then Failure(NoMethodError("ghsa_id"))
    else if ExternalReference(a).None? then Failure(NoMethodError("external_reference"))
    else Success(Compact(AdvisoryEntries(a, GhsaId(a).value, ExternalReference(a).value)))
  }

  /** to_h fails exactly when the GHSA identifier or a non-NVD reference is
      missing; otherwise its fields hold the identifiers without their type
      prefix, the publication day, the first non-NVD URL, the summary as
      title and the description, and it has no false value and no repeated
      key. */
  lemma {:induction false} AdvisoryHashFields(a: AdvisoryData)
    ensures AdvisoryHash(a).Failure? <==> GhsaId(a).None? || ExternalReference(a).None?
    ensures AdvisoryHash(a).Success? ==>
      var h := AdvisoryHash(a).value;
      && UniqueKeys(h)
      && (forall i :: 0 <= i < |h| ==> h[i].1 != Nil && h[i].1 != Bool(false))
      && Get(h, "url") == Str(ExternalReference(a).value)
      && Get(h, "title") == OptionalString(a.summary)
      && Get(h, "ghsa") == SliceFrom(GhsaId(a).value, 5)
      && Get(h, "cve") == (if CveId(a).Some? then SliceRange(CveId(a).value, 4, 20) else Nil)
      && Get(h, "cvss_v3") == CvssScore(a)
      && Get(h, "date") == PublishedDay(a)
      && Get(h, "description") == OptionalString(a.description)
      && (forall k :: k in KeysOf(h) ==> k in AdvisoryKeys)
  {
    if AdvisoryHash(a).Success? {
      var ghsa := GhsaId(a).value;
      var url := ExternalReference(a).value;
      AdvisoryHashShape(a);
      AdvisoryHashGet(a, "url");
      AdvisoryHashGet(a, "title");
      AdvisoryHashGet(a, "ghsa");
      AdvisoryHashGet(a, "cve");
      AdvisoryHashGet(a, "cvss_v3");
      AdvisoryHashGet(a, "date");
      AdvisoryHashGet(a, "description");
      AdvisoryEntryGet(a, ghsa, url, 0);
      AdvisoryEntryGet(a, ghsa, url, 1);
      AdvisoryEntryGet(a, ghsa, url, 2);
      AdvisoryEntryGet(a, ghsa, url, 3);
      AdvisoryEntryGet(a, ghsa, url, 4);
      AdvisoryEntryGet(a, ghsa, url, 5);
      AdvisoryEntryGet(a, ghsa, url, 6);
    }
  }

  lemma AdvisoryHashShape(a: AdvisoryData)
    requires AdvisoryHash(a).Success?
    ensures var h := AdvisoryHash(a).value;
            && UniqueKeys(h)
            && (forall i :: 0 <= i < |h| ==> h[i].1 != Nil && h[i].1 != Bool(false))
            && (forall k :: k in KeysOf(h) ==> k in AdvisoryKeys)
  {
    var e := AdvisoryEntries(a, GhsaId(a).value, ExternalReference(a).value);
    var h := AdvisoryHash(a).value;
    AdvisoryEntriesShape(a, GhsaId(a).value, ExternalReference(a).value);
    CompactUniqueKeys(e);
    forall i | 0 <= i < |h| ensures h[i].1 != Bool(false) {
      assert h[i] in e;
    }
    forall k | k in KeysOf(h) ensures k in AdvisoryKeys {
      CompactKeys(e, k);
    }
  }

  /** The entries of to_h have the seven field names, each once, and no false value. */
  lemma AdvisoryEntriesShape(a: AdvisoryData, ghsa: string, url: string)
    ensures var e := AdvisoryEntries(a, ghsa, url);
            && KeysOf(e) == AdvisoryKeys
            && UniqueKeys(e)
            && (forall i :: 0 <= i < |e| ==> e[i].1 != Bool(false))
  {
    var e := AdvisoryEntries(a, ghsa, url);
    assert KeysOf(e) == AdvisoryKeys;
  }

  /** to_h reads like its entries before compact. */
  lemma AdvisoryHashGet(a: AdvisoryData, k: string)
    requires AdvisoryHash(a).Success?
    ensures Get(AdvisoryHash(a).value, k) == Get(AdvisoryEntries(a, GhsaId(a).value, ExternalReference(a).value), k)
  {
    var e := AdvisoryEntries(a, GhsaId(a).value, ExternalReference(a).value);
    assert UniqueKeys(e);
    CompactKeepsLookups(e, k);
  }

  lemma AdvisoryEntryGet(a: AdvisoryData, ghsa: string, url: string, i: nat)
    requires i < 7
    ensures Get(AdvisoryEntries(a, ghsa, url), AdvisoryKeys[i]) == AdvisoryEntries(a, ghsa, url)[i].1
  {
    var e := AdvisoryEntries(a, ghsa, url);
    assert UniqueKeys(e);
    assert e[i].0 == AdvisoryKeys[i];
    GetEntry(e, i);
  }

  const AdvisoryKeys: seq<string> := ["cve", "date", "ghsa", "url", "title", "description", "cvss_v3"]

  /** Each entry of to_h is one of its seven fields and is never false. */
  lemma AdvisoryHashEntry(a: AdvisoryData, i: nat)
    requires AdvisoryHash(a).Success? && i < |AdvisoryHash(a).value|
    ensures AdvisoryHash(a).value[i].0 in AdvisoryKeys
    ensures AdvisoryHash(a).value[i].1 != Bool(false)
  {
    var e := AdvisoryEntries(a, GhsaId(a).value, ExternalReference(a).value);
    var h := AdvisoryHash(a).value;
    assert h[i] in e;
  }

  /** The `cve` field is the CVE identifier without `CVE-`, cut to 17
      characters; the `ghsa` field is the GHSA identifier without `GHSA-`. */
  lemma IdentifierFieldsStripPrefix(a: AdvisoryData, cve: string, ghsa: string)
    requires CveId(a) == Some("CVE-" + cve) && GhsaId(a) == Some("GHSA-" + ghsa)
    requires ExternalReference(a).Some?
    ensures Get(AdvisoryHash(a).value, "cve") == Str(if |cve| <= 17 then cve else cve[..17])
    ensures Get(AdvisoryHash(a).value, "ghsa") == Str(ghsa)
  {
    AdvisoryHashFields(a);
    var c := "CVE-" + cve;
    assert c[4..] == cve;
    if |cve| > 17 {
      assert c[4..21] == cve[..17];
    }
    assert ("GHSA-" + ghsa)[5..] == ghsa;
  }

  /** `^CVE-(\d+)-\d+$` against one line: the digits of the capture group. */
  function MatchCveLine(line: string): (y: Option<string>)
    ensures y.Some? ==> y.value != [] && AllDigits(y.value)
  {
    if !StartsWith(line, "CVE-") then None
    else
      var rest := line[4..];
      var n := DigitRun(rest);
      if 0 < n && n + 1 < |rest| && rest[n] == '-' && AllDigits(rest[n + 1..])
      then Some(rest[..n]) else None
  }

  /** The pattern accepts `CVE-<digits>-<digits>` and captures the first digits. */
  lemma MatchCveLineAccepts(year: string, number: string)
    requires year != [] && AllDigits(year) && number != [] && AllDigits(number)
    ensures MatchCveLine("CVE-" + year + "-" + number) == Some(year)
  {
    var line := "CVE-" + year + "-" + number;
    var rest := line[4..];
    assert rest == year + "-" + number;
    assert rest[|year|] == '-';
    assert rest[|year| + 1..] == number;
    assert rest[..|year|] == year;
  }

  /** Whatever the pattern accepts has that shape. */
  lemma MatchCveLineSound(line: string)
    requires MatchCveLine(line).Some?
    ensures var year := MatchCveLine(line).value;
            var number := line[|year| + 5..];
            number != [] && AllDigits(number) && line == "CVE-" + year + "-" + number
  {
    var rest := line[4..];
    var n := DigitRun(rest);
    assert line == line[..4] + rest;
    assert rest == rest[..n] + [rest[n]] + rest[n + 1..];
    assert line[|rest[..n]| + 5..] == rest[n + 1..];
  }

  /** The capture of the first line the pattern matches. */
  function FirstCveMatch(lines: seq<string>): (y: Option<string>)
    ensures y.Some? ==> y.value != [] && AllDigits(y.value)
  {
    if lines == [] then None
    else if MatchCveLine(lines[0]).Some? then MatchCveLine(lines[0])
    else FirstCveMatch(lines[1..])
  }

  /** The year `cve_after_year?` reads from a CVE id: the captured digits as
      an integer, or 0 (`nil.to_i`) when the pattern does not match. */
  function CveYear(id: string): nat {
    var m := FirstCveMatch(Lines(id));
    if m.Some? then DecimalValue(m.value) else 0
  }

  /** `cve_after_year?(year)`. */
  predicate CveAfterYear(a: AdvisoryData, year: int) {
    CveId(a).None? || CveYear(CveId(a).value) >= year
  }

  /** An advisory with a well-formed CVE id passes exactly when the id's
      year is at least `year`. */
  lemma CveAfterYearWellFormed(a: AdvisoryData, cveYear: string, number: string, year: int)
    requires cveYear != [] && AllDigits(cveYear) && number != [] && AllDigits(number)
    requires CveId(a) == Some("CVE-" + cveYear + "-" + number)
    ensures CveAfterYear(a, year) <==> DecimalValue(cveYear) >= year
  {
    var id := "CVE-" + cveYear + "-" + number;
    assert '\n' !in id by {
      forall i | 0 <= i < |id| ensures id[i] != '\n' {
        if 4 <= i < 4 + |cveYear| { assert id[i] == cveYear[i - 4]; }
        if 5 + |cveYear| <= i { assert id[i] == number[i - 5 - |cveYear|]; }
      }
    }
    LinesOfOneLine(id);
    MatchCveLineAccepts(cveYear, number);
  }

  /** A one-line CVE id that the pattern rejects counts as year 0. */
  lemma CveAfterYearMalformed(a: AdvisoryData, year: int)
    requires CveId(a).Some? && '\n' !in CveId(a).value && MatchCveLine(CveId(a).value).None?
    ensures CveAfterYear(a, year) <==> 0 >= year
  {
    LinesOfOneLine(CveId(a).value);
  }
}

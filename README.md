# GitHub advisory sync, modelled in Dafny

The ruby-advisory-db repository keeps one YAML file per vulnerable gem and
advisory, under `gems/<gem>/<id>.yml`. Its `GitHubAdvisorySync.sync` job does
the following:

- reads every RubyGems vulnerability from the GitHub GraphQL API, page by page;
- drops withdrawn advisories;
- groups the vulnerability nodes into advisories by primary id (the CVE id, else the GHSA id);
- keeps the advisories whose CVE year is at least `min_year`, together with every advisory without a CVE id; a CVE id the year pattern does not match counts as year 0;
- reconciles each affected gem's file with the data GitHub has:
  - an existing file has its missing fields filled in from the derived record (`update`);
  - a new file gets the derived record, a few placeholders and the raw GitHub data (`create`).

The job returns the paths it wrote. It raises `NoMethodError` instead when no package result was nil, because `compact!` then answers nil.

The model follows the script's parts:

- `values.dfy` (`Values`): Ruby values after parsing.
  - Ruby's nil is `Nil`.
  - Hashes are kept in insertion order. A record's `Hash#==` is order-insensitive; a hash nested inside a value compares in order.
  - The file also has `Hash#merge`, `Hash#compact` and `compact!`, whose nil return is `None`.
  - Raised exceptions are `Failure` results.
- `text.dfy` (`Text`): the string operations the script relies on.
  - Line splitting for a multi-line regex anchor.
  - Decimal digits.
  - First-appearance order for `uniq`.
  - `String` order and `Array#sort`.
- `advisory.dfy` (`Advisories`): the `GitHubAdvisory` value.
  - Identifier lookups, `primary_id`, `withdrawn?`, `cvss`, `external_reference`.
  - The derived record `to_h`.
  - `cve_after_year?`.
- `graphql_client.dfy` (`GraphQLClient`):
  - how a GraphQL response is classified;
  - the pagination loop of `retrieve_all_rubygem_vulnerabilities`;
  - the grouping loop of `all_rubygem_advisories`.
- `package.dfy` (`PackageRecords`): `GitHubAdvisory::Package`.
  - `filename` (with `File.join`), `framework` and `to_h`.
  - The `KEYS`-ordered `merge_data` loop.
  - `packages`, `first_patched_versions_for` and `patched_versions_for`.
- `record_store.dfy` (`RecordStore`): the advisory files.
  - They are a map from path to file, held in the class `AdvisoryStore`.
  - Its methods are `update`, `create`, the per-advisory `sync` and the top-level `GitHubAdvisorySync.sync`.

Each method is proved against a function that specifies the same step on
values. The lemmas state what the script is for:

- a sync touches only the package's own file;
- it reports exactly the files it changed;
- a file is rewritten only when the merged record differs from the saved one as a Hash;
- a created file holds the derived fields, the placeholders and the constraints;
- syncing again with the same GitHub data writes nothing.

Several behaviours follow the code as written, where a reader might expect
otherwise:

- `framework` is nil for every gem, Rails gems included, because `Array#===` compares the whole array with the name.
- Patched versions are sorted as strings.
- A gem with no patched version gets the single constraint `">= "`.
- A missing GHSA identifier, or a missing non-NVD reference, raises `NoMethodError`.
- `merge_data` returns nil when no field came out nil, and `update` then writes a null document.
- The top-level sync raises when every result was a path, because `compact!` then answers nil.

## Model

| member | source | states |
|---|---|---|
| GraphQLClient.QueryResultCases | lib/github_advisory_sync.rb:64-91 | a response is used exactly when its status is 200 and it carries no `errors`; otherwise the request raises GitHubGraphQLAPIError with the request URL and the body when the status is not 200, else with the `message` of every error joined by ", " |
| GraphQLClient.RetrieveAllVulnerabilities | lib/github_advisory_sync.rb:109-126 | the pagination loop returns the nodes FetchPages describes: pages are requested until one has no next page, a request fails, or `max_pages` requests were made |
| GraphQLClient.RequestsBounded | lib/github_advisory_sync.rb:112 | at most `max_pages` requests are made, and the first one sends the starting cursor |
| GraphQLClient.RequestsFollowCursor | lib/github_advisory_sync.rb:119-121 | every request after the first sends the end cursor of the previous page, which had a next page |
| GraphQLClient.FetchPagesIsConcatenation | lib/github_advisory_sync.rb:109-126 | the result is the concatenation of the requested pages' nodes; it fails exactly when the last request failed; fewer than `max_pages` successful requests end at a page without a next page |
| GraphQLClient.IndexNodes | lib/github_advisory_sync.rb:93-107 | the advisory index that the grouping loop builds keeps each id once and has a key for every listed id; its only failure is NoMethodError on `ghsa_id` |
| GraphQLClient.IndexNodesFailureStays | lib/github_advisory_sync.rb:96-104 | once a node without an id raises, the whole loop raises |
| GraphQLClient.AllRubygemAdvisories | lib/github_advisory_sync.rb:93-107 | the method returns AllAdvisories: the nodes of the pagination, grouped by primary id |
| GraphQLClient.LiveIdsMembership | lib/github_advisory_sync.rb:99-101 | an id is listed exactly when some non-withdrawn node has it as primary id |
| GraphQLClient.NoVulnerabilitiesWithoutId | lib/github_advisory_sync.rb:101-103 | no vulnerability is collected under an id no live node has |
| GraphQLClient.IndexNodesSucceeds | lib/github_advisory_sync.rb:99-101 | the grouping succeeds exactly when every non-withdrawn node has a CVE or GHSA identifier |
| GraphQLClient.IndexNodesIds | lib/github_advisory_sync.rb:101 | the advisory ids are the live nodes' primary ids without repeats, in order of first appearance |
| GraphQLClient.IndexNodesVulnerabilities | lib/github_advisory_sync.rb:102-103 | an advisory's vulnerabilities are, in order, those of every live node with its id, without the `advisory` key |
| GraphQLClient.IndexNodesFirstAdvisory | lib/github_advisory_sync.rb:101 | an advisory's data is that of the first live node with its id (`\|\|=`) |
| GraphQLClient.SameIdAggregatesToOne | lib/github_advisory_sync.rb:93-107 | nodes that all share one primary id give one advisory, with the first node's data and every node's vulnerability |
| GraphQLClient.SameIdLive | lib/github_advisory_sync.rb:99-103 | when every node is live with the same id, that id is the only one listed and every node's vulnerability is collected under it |
| Advisories.FindIdentifier | lib/github_advisory_sync.rb:250-260 | the value of the first identifier of the given type, and none exactly when no identifier has that type |
| Advisories.PrimaryIdChoice | lib/github_advisory_sync.rb:265-269 | the primary id is the first CVE identifier's value if there is one, else the first GHSA identifier's value; there is none exactly when neither type occurs |
| Advisories.FirstNonNvd | lib/github_advisory_sync.rb:290-296 | the external reference is the first reference URL that is not an NVD detail page; there is none exactly when all are |
| Advisories.AdvisoryHashFields | lib/github_advisory_sync.rb:304-314 | to_h fails exactly when the GHSA id or the external reference is missing; otherwise it has unique keys from the advisory field list and no nil or false value, and holds the CVE, date, GHSA, URL, title, description and CVSS fields computed from the advisory |
| Advisories.AdvisoryHashEntry | lib/github_advisory_sync.rb:304-314 | every key of to_h is one of its seven field names; no value is false |
| Advisories.IdentifierFieldsStripPrefix | lib/github_advisory_sync.rb:306-308 | the `cve` field is the CVE id without `CVE-`, cut to 17 characters, and the `ghsa` field is the GHSA id without `GHSA-` |
| Advisories.MatchCveLine | lib/github_advisory_sync.rb:413 | a match of `^CVE-(\d+)-\d+$` captures a non-empty run of digits |
| Advisories.MatchCveLineAccepts | lib/github_advisory_sync.rb:413 | `CVE-<digits>-<digits>` matches and captures the year digits |
| Advisories.MatchCveLineSound | lib/github_advisory_sync.rb:413 | whatever matches has the shape `CVE-<year>-<digits>` |
| Advisories.CveAfterYearWellFormed | lib/github_advisory_sync.rb:409-415 | an advisory with a well-formed CVE id is kept exactly when the id's year is at least the minimum |
| Advisories.CveAfterYearMalformed | lib/github_advisory_sync.rb:409-415 | a one-line CVE id the pattern rejects counts as year 0 (`nil.to_i`) |
| PackageRecords.PackageNames | lib/github_advisory_sync.rb:298-302 | the gem names of the advisory's vulnerabilities, each once, and exactly those |
| PackageRecords.PackagesOnePerGem | lib/github_advisory_sync.rb:298-302 | every package belongs to the advisory, no two share a gem name, and a gem has a package exactly when some vulnerability names it |
| PackageRecords.PackagesInFirstAppearanceOrder | lib/github_advisory_sync.rb:298-302 | packages come in order of the first vulnerability that names each gem (`uniq`) |
| PackageRecords.FilenameShape | lib/github_advisory_sync.rb:198-200 | for a plain gem name the file is `gems/<gem>/<primary id>.yml` |
| PackageRecords.FilenameInjective | lib/github_advisory_sync.rb:198-200 | two packages share a file only when they have the same gem name and primary id |
| PackageRecords.CveFilename | lib/github_advisory_sync.rb:198-200 | an advisory with a CVE id is filed under `gems/<gem>/CVE-<…>.yml` |
| PackageRecords.FrameworkIsNil | lib/github_advisory_sync.rb:202-211 | `framework` is nil for every gem name, because the array of Rails gems never equals a string |
| PackageRecords.PackageHashFields | lib/github_advisory_sync.rb:213-218 | the package record fails as the advisory's to_h does; otherwise `gem` is the gem name, `framework` is nil, every other key reads as in the advisory's to_h, and no key reads false |
| PackageRecords.PackageHashGet | lib/github_advisory_sync.rb:213-218 | a lookup in the package record reads the advisory field when there is one, else the gem name for `gem`, else nil |
| PackageRecords.KeysDistinct | lib/github_advisory_sync.rb:232-235 | the KEYS field list has no repeats |
| PackageRecords.FilledKeys | lib/github_advisory_sync.rb:225-227 | the filled record has exactly the KEYS, in order, each once |
| PackageRecords.MergeData | lib/github_advisory_sync.rb:220-230 | merge_data returns MergeResult: each KEY takes the saved value when it is truthy, else the derived one; to_h is evaluated only when some saved field is nil or false; the nil fields are removed, and the result is nil when there were none |
| PackageRecords.MergeFields | lib/github_advisory_sync.rb:220-230 | the loop over a field list without repeats computes Merge for that list |
| PackageRecords.FillFields | lib/github_advisory_sync.rb:222-227 | the KEYS loop raises (with to_h's exception) exactly when some field's saved value is nil or false and to_h raises; otherwise it fills every field with the saved truthy value or the derived one |
| PackageRecords.MergeShape | lib/github_advisory_sync.rb:222-229 | a merged record has unique keys from the field list, in field-list order, with no nil value |
| PackageRecords.MergeLookups | lib/github_advisory_sync.rb:225-227 | a merged field reads the saved value when it is truthy, else the derived one; a key outside the list reads nil |
| PackageRecords.MergeOutcomes | lib/github_advisory_sync.rb:220-230 | the merge raises exactly when to_h raises and some field's saved value is nil or false; it answers nil exactly when no field comes out nil |
| PackageRecords.MergeWithNilField | lib/github_advisory_sync.rb:226-229 | a field that comes out nil makes the merge return a record |
| PackageRecords.MergeIdempotent | lib/github_advisory_sync.rb:220-230 | merging a merged record again with the same derived data gives it back unchanged |
| PackageRecords.MergeSettled | lib/github_advisory_sync.rb:220-230 | a saved record whose falsy fields already read as derived, and with some field nil, merges to an equal Hash |
| PackageRecords.MergeResultSettled | lib/github_advisory_sync.rb:220-230 | the same for the KEYS merge |
| PackageRecords.PatchedIdentifiersMembership | lib/github_advisory_sync.rb:341-349 | a version is collected exactly when some vulnerability of the gem has it as its first patched version |
| PackageRecords.FirstPatchedVersionsFor | lib/github_advisory_sync.rb:341-351 | the versions are sorted in String order and are a permutation of the collected ones, duplicates included |
| PackageRecords.ConstraintsShape | lib/github_advisory_sync.rb:353-364 | one constraint per version: `~> v` for all but the last, `>= v` for the last; with no version, the single constraint `>= ` |
| PackageRecords.ConstraintsFromPrefix | lib/github_advisory_sync.rb:356-363 | the pessimistic constraints followed by the `>=` constraint on the last version are the constraint list |
| PackageRecords.PatchedVersionsFor | lib/github_advisory_sync.rb:353-364 | the method returns the constraints for the sorted first patched versions |
| PackageRecords.StringOrderIsNotVersionOrder | lib/github_advisory_sync.rb:350 | the sort orders `10.0` before `9.0` |
| PackageRecords.ConstraintsExamples | lib/github_advisory_sync.rb:353-364 | two versions give `~> first, >= last`; none gives `>= ` alone |
| PackageRecords.FilenameKeepsCvePrefix | lib/github_advisory_sync.rb:198-200 | a file named after a CVE id holds the same id, without prefix, in its `cve` field |
| RecordStore.AdvisoryStore.Update | lib/github_advisory_sync.rb:326-339 | update matches UpdateStep: it raises on a missing or empty saved record; a merge equal to the saved Hash writes nothing and returns nil; otherwise it rewrites the file with the merged record alone (a null document for a nil merge) and returns the path |
| RecordStore.AdvisoryStore.Create | lib/github_advisory_sync.rb:366-407 | create matches CreateStep: it merges the placeholders, overrides `patched_versions` and `related`, and writes the record with the raw GitHub data, returning the path |
| RecordStore.AdvisoryStore.SyncPackage | lib/github_advisory_sync.rb:316-324 | one package is updated when its file exists and created otherwise |
| RecordStore.AdvisoryStore.SyncAdvisory | lib/github_advisory_sync.rb:316-324 | an advisory's packages are synced in order, collecting the results; the first exception ends it |
| RecordStore.AdvisoryStore.SyncAll | lib/github_advisory_sync.rb:25 | every selected advisory is synced in order and the results are concatenated |
| RecordStore.AdvisoryStore.Sync | lib/github_advisory_sync.rb:19-35 | the whole run matches SyncOutcome: fetch, select by CVE year, sync all, and the written paths after `compact!` (NoMethodError when nothing was nil) |
| RecordStore.SyncPackagesStopsAtFailure | lib/github_advisory_sync.rb:318-323 | after an exception no later package of the advisory is synced |
| RecordStore.SyncAdvisoriesStopsAtFailure | lib/github_advisory_sync.rb:25 | after an exception no later advisory is synced |
| RecordStore.CompactPaths | lib/github_advisory_sync.rb:25 | `compact!` answers nil exactly when it removes nothing (no result was nil); otherwise it answers the written paths, which are fewer than the results |
| RecordStore.SelectFromYear | lib/github_advisory_sync.rb:23 | an advisory is kept exactly when it passes `cve_after_year?` |
| RecordStore.WrittenPaths | lib/github_advisory_sync.rb:25 | the written paths are exactly the non-nil results |
| RecordStore.SyncOutcomeCases | lib/github_advisory_sync.rb:19-35 | the run raises on nil `files_written` exactly when every result was a path; a successful run returns exactly the paths that were written |
| RecordStore.SyncTouchesOnlyItsFile | lib/github_advisory_sync.rb:316-407 | syncing a package changes no file but its own |
| RecordStore.SyncReportsWrites | lib/github_advisory_sync.rb:316-407 | a successful sync returns nil exactly when no file changed, and otherwise returns the package's path, whose content changed; an exception other than a nil create merge changes nothing |
| RecordStore.UpdateKeepsSavedFields | lib/github_advisory_sync.rb:326-339 | when update rewrites a file, every truthy saved KEY keeps its value, every other KEY takes the derived value, keys outside KEYS and the raw data are dropped, and the file becomes a null document exactly when no KEY came out nil |
| RecordStore.FilledRecordIsReplacedByNull | lib/github_advisory_sync.rb:229-230 | a saved record with every KEY truthy is overwritten with a null document, and the next sync of it raises on `saved_data` |
| RecordStore.PlaceholderLookups | lib/github_advisory_sync.rb:369-373 | the placeholders are the CVSS fill-in only when there is no CVSS score, plus the `patched_versions` and `unaffected_versions` fill-ins |
| RecordStore.CreateMergeIsNeverNil | lib/github_advisory_sync.rb:378-384 | in create, merging the placeholders always yields a record, because `library` is never set |
| RecordStore.LibraryNotDerived | lib/github_advisory_sync.rb:213-218 | the package record never sets `library` |
| RecordStore.CreatedField | lib/github_advisory_sync.rb:378-384 | the overrides set `patched_versions` to the constraints and `related` to `{url: <the advisory's references>}`, the list of reference objects; every other field is the merged one |
| RecordStore.DerivedCvssAndUrl | lib/github_advisory_sync.rb:284-296 | the package record's `cvss_v3` is the CVSS score and its `url` is the external reference |
| RecordStore.CreateWritesRecord | lib/github_advisory_sync.rb:366-407 | create with a derivable record returns the path and writes the merged, overridden record followed by the raw advisory data |
| RecordStore.CreatedRecordFields | lib/github_advisory_sync.rb:366-407 | the created record has the gem name, the constraints, the related URLs, the `unaffected_versions` placeholder, the CVSS score or its placeholder, and the external reference as `url` |
| RecordStore.CreatedLibraryIsNil | lib/github_advisory_sync.rb:378-384 | the created record has no `library` field |
| RecordStore.SyncIsIdempotent | lib/github_advisory_sync.rb:316-339 | after a successful sync that leaves a mapping in the file, syncing the same package again writes nothing |
| RecordStore.CreateThenUpdateIsSettled | lib/github_advisory_sync.rb:326-407 | a file that create has just written is left unchanged by the next sync |
| RecordStore.CreatedRecordSettled | lib/github_advisory_sync.rb:220-230 | merging the created record with the same derived data gives an equal Hash |
| RecordStore.SyncPackagesSettles | lib/github_advisory_sync.rb:316-324 | after an advisory's packages, which have distinct files, are synced successfully and their files hold mappings, every package is settled |
| RecordStore.SettledPackagesWriteNothing | lib/github_advisory_sync.rb:316-339 | syncing settled packages changes no file and returns nil for each |
| RecordStore.SecondSyncWritesNothing | lib/github_advisory_sync.rb:316-339 | once every package file of an advisory holds a mapping after a sync, a second sync of the advisory with the same data writes nothing |
| GraphQLClient.AggregateIdsDistinct | lib/github_advisory_sync.rb:94-107 | every advisory of `all_rubygem_advisories` carries the primary id it is stored under, so each has one and no two share one |
| RecordStore.SelectKeepsDistinctIds | lib/github_advisory_sync.rb:23 | `select!` keeps the selected advisories' primary ids distinct |
| RecordStore.SyncPackagesAppend | lib/github_advisory_sync.rb:318-323 | syncing two package lists in turn is syncing their concatenation: the second starts from the files the first left, and its results follow the first's; an exception in the first ends the run |
| RecordStore.SyncAdvisoriesIsSyncPackages | lib/github_advisory_sync.rb:25 | `filter_map(&:sync).flatten` syncs all the advisories' packages as one list, in order |
| RecordStore.AllPackagesDistinctFiles | lib/github_advisory_sync.rb:198-200 | with distinct primary ids and plain gem names, no two packages of the run share a file |
| RecordStore.WrittenNones | lib/github_advisory_sync.rb:25 | `compact!` of nil results alone answers an empty list, and of no results answers nil |
| RecordStore.SecondSyncOfAdvisoriesWritesNothing | lib/github_advisory_sync.rb:25 | syncing the advisories again after a first sync that raised nothing and left a mapping in every package file changes no file and returns nil for every package |
| RecordStore.SecondRunWritesNothing | lib/github_advisory_sync.rb:19-35 | a second whole run with the same GitHub data writes no file; it returns an empty list when there is a package to sync, and raises on `files_written.empty?` when there is none |
| Text.Dedup | lib/github_advisory_sync.rb:301 | `uniq` keeps every element, each once |
| Text.DedupKeepsFirstOccurrenceOrder | lib/github_advisory_sync.rb:301 | `uniq` keeps elements in order of their first occurrence |
| Text.SortStrings | lib/github_advisory_sync.rb:350 | `Array#sort` on strings gives a sorted permutation |
| Text.SortedPermutationIsUnique | lib/github_advisory_sync.rb:350 | a sorted permutation of a list of strings is unique, so the sort is determined |
| Values.CompactBang | lib/github_advisory_sync.rb:229 | `compact!` answers nil exactly when `compact` would leave the record unchanged; otherwise it answers the compacted record, which is shorter |
| Values.CompactKeepsLookups | lib/github_advisory_sync.rb:229 | `compact` changes no lookup: a nil value and an absent key read alike |
| Values.GetHashMerge | lib/github_advisory_sync.rb:216-217 | after `merge`, a key of the second hash reads as there, every other key as in the first |

## Left out

- The HTTP transport is not modelled: the Faraday connection, its cache, the token lookup through the environment and the `puts` logging (lib/github_advisory_sync.rb:44-62, 173-182). Each request is a `fetch` function from the cursor to a response, given as a parameter.
- The text of the GraphQL query is not modelled (lib/github_advisory_sync.rb:128-171), and neither are `gem_name` and `page_size`. They only shape what the server returns, which the `fetch` parameter covers.
- YAML and JSON parsing and dumping are taken to be exact on the first document. A saved file is a `Document`, a mapping or a null or empty document, plus the raw advisory data `create` appends below it.
- `FileUtils.mkdir_p` and file system errors are not modelled. A write replaces the map entry for the path, and `updating?` is the path's presence in the map.
- Advisories.PublishedDay: keeps the whole `publishedAt` text as the date. `Date.parse` keeps only the day, so a created or refilled file holds the full timestamp where the script writes the day alone (lib/github_advisory_sync.rb:271-277).
- Advisories.PublishedDay: never fails, while `Date.parse` raises on malformed text; the model has no such exception.
- CVSS scores are reals, not IEEE floats.
- `Value` has no integer case, although a saved record can hold one (an `osvdb` number, say). The merge keeps any truthy saved value as it is, so an integer would behave as a string does here.
- GitHub advisory objects are values. Sharing of one advisory object among packages is not modelled.
- A 200 response without `errors` is taken to carry a page. When its `data` or `securityVulnerabilities` is null, `retrieve_all_rubygem_vulnerabilities` raises NoMethodError (lib/github_advisory_sync.rb:116); `Response.data` is always a `Page`, so the model cannot express that case.
- Requests is a description of the cursors the pagination loop sends. The method does not return it.
- `lib/ruby_scrape.rb`, `get_stats.rb` and the test suite under `spec/` are not part of this model.

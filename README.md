# srules core, modelled in Dafny

srules is an archive of coding rules. Each rule is a markdown file under `rules/`, with a
YAML frontmatter block. This project models the parts of the archive that carry its
logic, and proves properties about them:

- **The client-local preference store.** `LocalStorageAdapter` keeps JSON values in the
  browser's `localStorage` under `prefix_key`. `ArrayStorageAdapter` keeps a list under
  one such key. `FavoriteService` keeps the favourite rules, one per slug.
  `RecentViewService` keeps the recently viewed rules: newest first, one entry per slug,
  capped at `maxItems`.
- **The corpus functions** (`src/lib/rules.ts`). These cover:
  - slugs derived from paths;
  - excerpts;
  - the rule list sorted newest first, and its category, tag and featured filters;
  - the lookup by slug;
  - the category and tag counts, sorted by count.
- **The build scripts.** `validate-rule.js` checks each rule file and decides the exit
  status. `build-search-index.js` writes the search records. `generate-history.js` turns
  each file's `git log` into its history.
- **The submission path.** The submit page's pull-request client (`src/lib/github.ts`)
  and the page itself (`src/app/submit/page.tsx`). The submission service that proposes,
  updates and deletes rules (`RuleSubmissionService.ts`). The form hook that feeds the
  service or falls back to a pre-filled GitHub issue (`useRuleSubmission.ts`). The
  category picker (`SubmitClient.tsx`).

How the model represents the program:

- Code that changes state stays imperative. `localStorage` is the class
  `LocalStorage.BrowserStorage`. It has a map of items, the enumeration order of
  `key(i)`, and a `hasWindow` flag for code that runs without a browser window.
- The adapters and services are classes over that store. The adapter's mutators state
  the new item map and key order exactly. Every mutator, the services' included, states
  that every other physical key keeps its item and its place in the key order.
- The GitHub repository is the class `GitRemote.Remote`. It records every call it
  receives in `trace`, and a fixed `respond` function of that trace decides each answer.
  A run of a plan of calls (`GitRemote.RunOf`) makes the calls in order until the first
  reply that does not decode. The submission methods state that their trace is that run,
  and that their result is the refused call's error, or the final answer when every
  call was accepted.
- The script and corpus loops are methods with loop invariants. Each is proved equal to
  a specification function, and the lemmas are stated about that function.
- `JSON.stringify`/`JSON.parse` are a `Codec` pair. The adapters require that the pair
  round-trips.
- Clock readings (`Date.now()`, `toISOString()`) are parameters. So is date parsing for
  the newest-first sort. So is the markdown-stripping regex chain of `createExcerpt`.
- Directory walks are flattened into the list of files they visit, in order. Each file
  comes already split by the frontmatter parser into its data and its body.
- Lengths count characters, meaning code points. JavaScript counts UTF-16 code units,
  and the two agree outside the astral planes.

## Model

| member | source | states |
|---|---|---|
| LocalStorage.PhysicalKey | src/services/storage/LocalStorageAdapter.ts:15-17 | the physical key is `prefix_key`; the logical key is what follows `prefix_` |
| LocalStorage.PhysicalKeyInjective | src/services/storage/LocalStorageAdapter.ts:15-17 | under one prefix, distinct logical keys never share a physical key |
| LocalStorage.SeparatorFreePrefixesSeparate | src/services/storage/LocalStorageAdapter.ts:15-17 | two adapters whose prefixes hold no `_` share a physical key only when prefix and key both agree |
| LocalStorage.PrefixesCanCollide | src/services/storage/LocalStorageAdapter.ts:15-17 | with a `_` in a prefix, `srules`/`x_favorites` and `srules_x`/`favorites` address the same slot |
| LocalStorage.KeysUnderMembers | src/services/storage/LocalStorageAdapter.ts:57-62 | a logical key is reported exactly when `prefix_` + key is among the stored keys |
| LocalStorage.KeysUnderDistinct | src/services/storage/LocalStorageAdapter.ts:57-62 | distinct stored keys give distinct reported keys |
| LocalStorage.LocalStorageAdapter.Get | src/services/storage/LocalStorageAdapter.ts:19-29 | `None` without a window or for a missing item; a value only when the stored text parses to it |
| LocalStorage.LocalStorageAdapter.Set | src/services/storage/LocalStorageAdapter.ts:31-39 | with a window, `Get` reads back the value and every other key reads as before; without one, nothing changes |
| LocalStorage.LocalStorageAdapter.Remove | src/services/storage/LocalStorageAdapter.ts:41-49 | afterwards `Get` finds nothing for the key, and every other key reads as before |
| LocalStorage.LocalStorageAdapter.GetAllKeys | src/services/storage/LocalStorageAdapter.ts:51-65 | the stored logical keys under the prefix, in store order, each once; a key is listed exactly when its item is stored; empty without a window |
| ArrayStorage.ArrayStorageAdapter.constructor | src/services/storage/ArrayStorageAdapter.ts:13-16 | an adapter for `key` under `prefix`, default `srules` |
| ArrayStorage.ArrayStorageAdapter.GetAll | src/services/storage/ArrayStorageAdapter.ts:18-20 | the stored list, or `[]` when nothing readable is stored |
| ArrayStorage.ArrayStorageAdapter.Add | src/services/storage/ArrayStorageAdapter.ts:22-26 | the item is appended at the end: the slot holds the serialised longer list, the key order is the old one with the slot last; without a window nothing changes; every other physical key keeps its item and place |
| ArrayStorage.ArrayStorageAdapter.Remove | src/services/storage/ArrayStorageAdapter.ts:28-39 | answers whether any item matched; if so, the slot holds exactly the non-matching items in order and the key order is unchanged; if not, nothing is written; no match remains; every other physical key keeps its item and place |
| ArrayStorage.ArrayStorageAdapter.Exists | src/services/storage/ArrayStorageAdapter.ts:41-44 | true exactly when some stored item satisfies the predicate |
| ArrayStorage.ArrayStorageAdapter.SetAll | src/services/storage/ArrayStorageAdapter.ts:46-48 | the slot holds the serialised items, which read back (with a window); without a window nothing changes; every other physical key keeps its item and place |
| ArrayStorage.ArrayStorageAdapter.Clear | src/services/storage/ArrayStorageAdapter.ts:50-52 | the slot is removed from the items and from the key order, so the list reads as empty; every other physical key keeps its item and place |
| Favorites.AppendKeepsUnique | src/services/FavoriteService.ts:26-30 | appending an item whose slug is absent keeps slugs unique |
| Favorites.RemoveKeepsUnique | src/services/FavoriteService.ts:35-37 | removing by slug keeps slugs unique |
| Favorites.RemoveAfterAppend | src/services/FavoriteService.ts:43-53 | removing the slug of an item just appended gives the list back |
| Favorites.FavoriteService.Default | src/services/FavoriteService.ts:12-14 | the default service keeps its list under key `favorites`, prefix `srules` |
| Favorites.FavoriteService.IsFavorite | src/services/FavoriteService.ts:58-60 | true exactly when some stored favourite has the slug |
| Favorites.FavoriteService.AddFavorite | src/services/FavoriteService.ts:26-30 | appends the item unless its slug is already a favourite; afterwards it is one; unique slugs stay unique; every other physical key of the store keeps its item and place |
| Favorites.FavoriteService.RemoveFavorite | src/services/FavoriteService.ts:35-37 | every favourite with the slug goes and the rest keep their order; afterwards the slug is no favourite; every other physical key of the store keeps its item and place |
| Favorites.FavoriteService.ToggleFavorite | src/services/FavoriteService.ts:43-53 | answers true exactly when the slug was not a favourite; membership flips; the new list is the append or the removal; every other physical key of the store keeps its item and place |
| Favorites.FavoriteService.ClearFavorites | src/services/FavoriteService.ts:65-67 | the favourites read as empty; every other physical key of the store keeps its item and place |
| Favorites.ToggleTwice | src/services/FavoriteService.ts:43-53 | toggling a new item twice answers true then false and leaves the favourites as they were |
| RecentViews.WithViewFront | src/services/RecentViewService.ts:34-53 | the new visit heads the list, no other entry has its slug, and the rest are the other entries in their old order, oldest dropped |
| RecentViews.WithViewCapped | src/services/RecentViewService.ts:47-50 | a non-negative cap bounds the length |
| RecentViews.WithViewUnique | src/services/RecentViewService.ts:37-45 | unique slugs stay unique |
| RecentViews.WithViewNewestFirst | src/services/RecentViewService.ts:34-53 | a visit no earlier than every stored one keeps the list newest first |
| RecentViews.FilterDropsOne | src/services/RecentViewService.ts:37-38 | among unique slugs, filtering out a present slug drops exactly one entry |
| RecentViews.MoveToFront | src/services/RecentViewService.ts:34-53 | re-viewing a listed rule within the cap moves it to the front with the new time and keeps the length |
| RecentViews.ReplayRecordsVisits | src/services/RecentViewService.ts:34-53 | after any series of visits from an empty list, every entry is one of the visits |
| RecentViews.ReplayInvariant | src/services/RecentViewService.ts:34-53 | visits in time order give a list that is newest first, without a repeated slug, and within the cap |
| RecentViews.RecentViewService.constructor | src/services/RecentViewService.ts:18-21 | the service over the given storage, `maxItems` defaulting to 10 |
| RecentViews.RecentViewService.Default | src/services/RecentViewService.ts:18-21 | the default service keeps its list under key `recent_views`, prefix `srules` |
| RecentViews.RecentViewService.AddRecentView | src/services/RecentViewService.ts:34-53 | the stored list is `WithView` of the old one; the visit is first; the length is within the cap; unique slugs stay unique; every other physical key of the store keeps its item and place |
| RecentViews.RecentViewService.RemoveRecentView | src/services/RecentViewService.ts:58-60 | answers whether an entry had the slug; all such entries go and the rest keep their order; every other physical key of the store keeps its item and place |
| RecentViews.RecentViewService.ClearRecentViews | src/services/RecentViewService.ts:65-67 | the list reads as empty; every other physical key of the store keeps its item and place |
| Rules.StripMd | src/lib/rules.ts:40 | a trailing `.md` is dropped and nothing else changes |
| Rules.SlugFromPath | src/lib/rules.ts:38-41 | the path without `.md`, each backslash a slash, no backslash left |
| Rules.SlugOfMarkdownFile | src/lib/rules.ts:38-41 | the slug of `name.md` is `name` with backslashes as slashes |
| Rules.PlainText | src/lib/rules.ts:47-54 | the flattened text holds no newline and starts and ends with non-space |
| Rules.Truncate | src/lib/rules.ts:56-58 | text within the limit is kept; longer text becomes its first `maxLength` characters followed by `...` |
| Rules.CreateExcerpt | src/lib/rules.ts:46-59 | at most `maxLength` + 3 characters, with no newline |
| Rules.RuleSlug | src/lib/rules.ts:74 | the frontmatter slug when set, else the slug of the path |
| Rules.ToListItem | src/lib/rules.ts:72-82 | the entry's slug, title, creation date and featured flag come from the file; tags and categories default to `[]` |
| Rules.AllRules | src/lib/rules.ts:64-89 | one entry per file, a permutation of the files' entries, newest first by creation time; entries of equal time stay in file order |
| Rules.AllRulesListsEveryFile | src/lib/rules.ts:67-83 | every file's entry is in the rule list |
| Rules.RulesByCategory | src/lib/rules.ts:94-99 | exactly the rules with a category equal ignoring case, in list order |
| Rules.RulesByTag | src/lib/rules.ts:104-109 | exactly the rules with a tag equal ignoring case, in list order |
| Rules.FiltersIgnoreCase | src/lib/rules.ts:94-109 | asking in lower case gives the same rules as asking in any case |
| Rules.FeaturedRules | src/lib/rules.ts:114-117 | exactly the rules whose `featured` is `true`, in list order |
| Rules.ToRule | src/lib/rules.ts:132-138 | the returned rule carries the resolved slug, the body and the file path |
| Rules.GetRuleBySlug | src/lib/rules.ts:122-143 | `None` exactly when no file has the slug; otherwise the rule of the first file in walk order that has it |
| Rules.CountNames | src/lib/rules.ts:156-170 | each name that occurs is listed once, with its number of occurrences, sorted by count, largest first; names of equal count stay in order of first occurrence |
| Rules.CountList | src/lib/rules.ts:160-165 | after one rule's list the map holds exactly the names seen so far, each with its occurrences; the order is the old one followed by the list's new names, in order of first occurrence |
| Rules.Entries | src/lib/rules.ts:167-168 | one `{name, count}` entry per name of the map, in insertion order |
| Rules.SortedCounts | src/lib/rules.ts:167-169 | every name of the map exactly once, with its count, sorted by count, largest first; entries of equal count keep the map's insertion order |
| Rules.AllCategories | src/lib/rules.ts:156-170 | every category of the rule list once, with its number of occurrences, largest first; categories of equal count in order of first occurrence |
| Rules.AllTags | src/lib/rules.ts:175-189 | every tag of the rule list once, with its number of occurrences, largest first; tags of equal count in order of first occurrence |
| Seqs.SortDescStable | src/lib/rules.ts:167-169 | sorting by count keeps the elements of each count in their original order |
| Seqs.AppendNewMembers | src/lib/rules.ts:160-165 | the `Map` insertion order keeps the old names in front and holds each name seen, once |
| Seqs.AppendNewAppend | src/lib/rules.ts:156-165 | counting the lists one after the other gives the first-seen order of all their names |
| ValidateRule.MissingFields | scripts/validate-rule.js:13-18 | no more messages than fields checked, each starting `Missing required field: ` |
| ValidateRule.MissingFieldsExact | scripts/validate-rule.js:13-18 | a field's message appears exactly when the field is checked and not set |
| ValidateRule.MissingFieldsOfUnset | scripts/validate-rule.js:13-18 | one message per unset field, in field order, naming that field |
| ValidateRule.ErrorsEmptyIff | scripts/validate-rule.js:7-39 | a file passes exactly when all seven fields are set, the title has 5..100 characters, the trimmed body has at least 50, and both section headers occur |
| ValidateRule.SectionMessageNotFrontmatter | scripts/validate-rule.js:12-23 | no frontmatter message is a missing-section message |
| ValidateRule.BodyErrorsMembers | scripts/validate-rule.js:25-36 | each body message appears exactly under its own condition |
| ValidateRule.SectionErrorsIndependent | scripts/validate-rule.js:30-36 | each missing header has its own message, whatever the other header does |
| ValidateRule.ValidateFile | scripts/validate-rule.js:7-39 | the loop yields the specified messages in order; none exactly when the file passes every check |
| ValidateRule.TotalErrorsZeroIff | scripts/validate-rule.js:61-71 | the total is zero exactly when every file passes |
| ValidateRule.ExitCode | scripts/validate-rule.js:71-77 | the status is 1 when the total is positive and 0 otherwise, and it is 0 exactly when every file passes |
| ValidateRule.ValidateAll | scripts/validate-rule.js:56-77 | the total is the sum of the files' message counts; the exit code is 1 when it is positive and 0 exactly when every file passes |
| SearchIndex.CollapseSpace | scripts/build-search-index.js:37-38 | no longer than its input; only plain spaces, never two side by side |
| SearchIndex.CollapseSpaceAround | scripts/build-search-index.js:37-38 | a character other than white space is kept, between the collapsed texts before and after it |
| SearchIndex.CollapseSpaceRun | scripts/build-search-index.js:37-38 | a run of white space, newlines included, becomes one space |
| SearchIndex.CollapsedHasNoNewline | scripts/build-search-index.js:37-38 | collapsed text holds no newline |
| SearchIndex.TrimKeepsCollapsed | scripts/build-search-index.js:37-39 | trimming keeps collapsed text collapsed |
| SearchIndex.IndexExcerpt | scripts/build-search-index.js:35-39 | at most 200 characters, collapsed, no newline, no white space at either end |
| SearchIndex.IndexSlug | scripts/build-search-index.js:31-32 | the frontmatter slug when set, else the slug of the relative path |
| SearchIndex.IndexRecord | scripts/build-search-index.js:41-51 | `path` repeats the slug; title, category, tags and author default to `Untitled`, `[]`, `[]` and `Anonymous`; the excerpt has at most 200 characters |
| SearchIndex.RecordsOfReadFiles | scripts/build-search-index.js:24-55 | exactly one record per readable file, in walk order |
| SearchIndex.BuildIndex | scripts/build-search-index.js:8-59 | an empty index without a rules directory; otherwise the records of the readable files, in order, with unreadable files skipped |
| RuleHistory.Piece | scripts/generate-history.js:20 | a destructured element is defined exactly within the array |
| RuleHistory.ParseLine | scripts/generate-history.js:20-21 | the hash is the first field split on vertical bars and holds no vertical bar; the message is defined exactly when the line has at least four fields |
| RuleHistory.GitHistory | scripts/generate-history.js:8-27 | nothing for a failed or empty log; otherwise one record per line, in order |
| RuleHistory.ParseLogLine | scripts/generate-history.js:13-21 | a formatted commit line parses back into its hash, author and date, and its subject up to the first vertical bar |
| RuleHistory.ParseLogText | scripts/generate-history.js:12-22 | the parse of a whole `git log` output gives its commits one by one, in order |
| RuleHistory.HistoryKeyIsSlug | scripts/generate-history.js:40-41 | the history key equals the corpus slug of the same path, although the replacements run in the other order |
| RuleHistory.HistoryKeys | scripts/generate-history.js:29-49 | the keys are exactly those of the markdown files |
| RuleHistory.HistoryLastWins | scripts/generate-history.js:36-46 | a key holds the history of the last markdown file that has it |
| RuleHistory.CollectHistory | scripts/generate-history.js:29-49 | the loop builds the specified map; its keys are exactly the markdown files' keys |
| GitRemote.ShaOf | src/lib/github.ts:61-64 | a SHA only from a successful branch reply, and then that reply's SHA |
| GitRemote.FileInfoOf | src/services/github/GitOperationsService.ts:41-49 | file info only from a successful file reply, with its SHA and content |
| GitRemote.PullRequestOf | src/lib/github.ts:103-117 | a pull request only from a successful pull-request reply, with its URL and number |
| GitRemote.SentSha | src/services/github/GitOperationsService.ts:67-69 | a `sha` field is sent exactly when the SHA is non-empty |
| GitRemote.Remote.GetMainBranchSha | src/lib/github.ts:61-64 | one call appended to the trace; the answer decoded as a SHA |
| GitRemote.Remote.CreateBranch | src/lib/github.ts:69-77 | one call with the branch and its base SHA appended to the trace |
| GitRemote.Remote.PutFile | src/services/github/GitOperationsService.ts:54-75 | one write call appended to the trace, with the SHA only when non-empty |
| GitRemote.Remote.DeleteFile | src/services/github/GitOperationsService.ts:80-94 | one delete call with path, message, branch and SHA appended to the trace |
| GitRemote.Remote.CreatePullRequest | src/lib/github.ts:103-117 | one pull-request call appended to the trace; the answer decoded as a pull request |
| GitRemote.RunOf | src/lib/github.ts:133-189 | a run makes at most the planned calls, and all of them when no reply is refused |
| GitRemote.RunPrefix | src/lib/github.ts:133-189 | the calls made are a prefix of the plan, non-empty for a non-empty plan |
| GitRemote.RunRefused | src/lib/github.ts:195-197 | a failed run's error is the refusal of the last call it made |
| GitRemote.RunAccepted | src/lib/github.ts:133-189 | every call of a run before its last was accepted |
| GitRemote.RunSeq | src/services/github/RuleSubmissionService.ts:32-66 | running two plans one after the other is running their concatenation |
| GitHubClient.DropEdgeDashes | src/lib/github.ts:129 | one hyphen dropped at each end: the input is a leading hyphen if it had one, the result, and a trailing hyphen if it had one |
| GitHubClient.TitleSlug | src/lib/github.ts:126-129 | lower-case ASCII letters, digits and single hyphens, none at either end, each letter or digit from the lower-cased title |
| Text.ReplaceRunsAround | src/lib/github.ts:128 | a character outside the class is kept, between the replaced texts before and after it |
| Text.ReplaceRunsRun | src/lib/github.ts:128 | a non-empty run of class characters becomes the single replacement |
| GitHubClient.DashRunsAround | src/lib/github.ts:127-128 | a letter or digit is kept lower-cased, between the lowered and replaced texts before and after it |
| GitHubClient.DashRunsRun | src/lib/github.ts:127-128 | a non-empty run of non-slug characters becomes one hyphen |
| GitHubClient.TitleSlugWords | src/lib/github.ts:126-129 | two lower-case words around any run of non-slug characters give the words joined by one hyphen |
| GitHubClient.TitleSlugFixed | src/lib/github.ts:126-129 | a slug is its own slug |
| GitHubClient.TitleSlugIdempotent | src/lib/github.ts:126-129 | deriving the slug twice changes nothing more |
| GitHubClient.BranchNameInjective | src/lib/github.ts:130 | different slugs or timestamps give different branch names |
| GitHubClient.FilePath | src/lib/github.ts:139-140 | `rules/` + the frontmatter slug + `.md` |
| GitHubClient.FilePathGivesFrontmatterSlug | src/lib/github.ts:139-145 | the corpus derives from the new file's path the slug its frontmatter states |
| GitHubClient.FrontmatterLines | src/lib/github.ts:143-152 | ten lines between `---` delimiters, the slug line being `category/slug` |
| GitHubClient.MarkdownFrontmatterReadsBack | src/lib/github.ts:143-154 | with single-line fields, the markdown is the block, an empty line and the content, and the block splits back into its lines |
| GitHubClient.PRBody | src/lib/github.ts:165-183 | the description opens with its heading line and contains the file line |
| GitHubClient.PRBodyReadsBack | src/lib/github.ts:165-183 | with single-line values the description splits back into the template's nineteen lines: heading, the five fields, the file line, the checklist and the closing note |
| GitHubClient.SubmissionOf | src/lib/github.ts:124-189 | no file exactly when the category list is empty |
| GitHubClient.SubmissionCalls | src/lib/github.ts:133-189 | four calls when there is a file, two when there is not |
| GitHubClient.GitHubApiClient.constructor | src/lib/github.ts:29-33 | the client keeps owner, repository and token |
| GitHubClient.GitHubApiClient.SubmitRule | src/lib/github.ts:122-198 | the trace is the run of the SHA read, the branch creation and, with a file, the file write and the pull request; the result is the first refused call's error, else the `TypeError` of `params.category[0]` when there is no category, else the decoded pull request; an empty category list always fails |
| GitHubClient.GitHubApiClient.Publish | src/lib/github.ts:133-198 | the same run of the planned calls: each call is made only after every earlier one was accepted, and the first refusal is the result |
| GitHubClient.EnvOr | src/lib/github.ts:206-208 | a set, non-empty variable wins over the fallback |
| GitHubClient.Settings | src/lib/github.ts:205-216 | no client exactly when neither token is set; the public token comes first; owner and repository default to `depari` and `srules` |
| GitHubClient.CreateGitHubClient | src/lib/github.ts:205-216 | `null` exactly when neither token variable is set, otherwise a fresh client with the settings |
| RuleSubmission.StripExtension | src/services/github/RuleSubmissionService.ts:29 | a prefix of the name; shorter exactly when an extension (a dot and word characters to the end) is dropped |
| RuleSubmission.StripExtensionOf | src/services/github/RuleSubmissionService.ts:29 | `base.ext` loses exactly `.ext` |
| RuleSubmission.PathPart | src/services/github/RuleSubmissionService.ts:82 | the path without its extension, with no slash |
| RuleSubmission.PathBranch | src/services/github/RuleSubmissionService.ts:82 | a branch for an existing path (`update-rule-…` here, `delete-rule-…` at line 140) starts with its prefix and holds no slash when the prefix has none |
| RuleSubmission.BranchTimestamps | src/services/github/RuleSubmissionService.ts:28-29 | the add, update and delete branches all end in the timestamp, readable back |
| RuleSubmission.FrontmatterLines | src/services/github/RuleSubmissionService.ts:195-202 | eight lines between `---` delimiters |
| RuleSubmission.MarkdownContentShape | src/services/github/RuleSubmissionService.ts:184-206 | trimming keeps the whole block; then an empty line and the content without trailing space, or nothing for blank content |
| RuleSubmission.FrontmatterReadsBack | src/services/github/RuleSubmissionService.ts:195-202 | with single-line fields, the block splits back into the lines written |
| RuleSubmission.HeadingTellsUpdate | src/services/github/RuleSubmissionService.ts:222 | a body with the heading for `isUpdate` starts with the change heading exactly when `isUpdate` holds |
| RuleSubmission.PRBody | src/services/github/RuleSubmissionService.ts:211-233 | the body starts with the change heading exactly for an update, else with the proposal heading, and ends with the closing note |
| RuleSubmission.DeleteBody | src/services/github/RuleSubmissionService.ts:158-167 | the description starts with the removal heading and holds the path on its own line |
| RuleSubmission.FileCalls | src/services/github/RuleSubmissionService.ts:89-108 | a new file is one write; a change or removal first looks the file up, then writes or deletes it |
| RuleSubmission.ProposalCalls | src/services/github/RuleSubmissionService.ts:32-66 | the main SHA read, the branch made from it, the file calls, then the pull request into `main` |
| RuleSubmission.SubmitProposal | src/services/github/RuleSubmissionService.ts:24-66 | a new rule creates its file with the generated markdown |
| RuleSubmission.UpdateProposal | src/services/github/RuleSubmissionService.ts:77-124 | a change overwrites the original path with the generated markdown |
| RuleSubmission.DeleteProposal | src/services/github/RuleSubmissionService.ts:135-173 | a removal deletes the original path |
| RuleSubmission.RuleSubmissionService.SubmitRule | src/services/github/RuleSubmissionService.ts:24-72 | the trace is the run of the proposal plan; the result is the first refused call's error, or the decoded pull request when every call was accepted |
| RuleSubmission.RuleSubmissionService.UpdateRule | src/services/github/RuleSubmissionService.ts:77-130 | the same, for the update plan, writing the file with the SHA the lookup answered |
| RuleSubmission.RuleSubmissionService.DeleteRule | src/services/github/RuleSubmissionService.ts:135-179 | the same, for the removal plan, deleting with the SHA the lookup answered |
| RuleSubmission.RuleSubmissionService.Propose | src/services/github/RuleSubmissionService.ts:31-66 | the trace is the run of the plan: each call is made only after every earlier one was accepted; the result is the first refusal, or the pull request |
| RuleSubmission.RuleSubmissionService.OpenBranch | src/services/github/RuleSubmissionService.ts:31-33 | the trace is the run of the SHA read and the branch creation; the result is the first refusal, or success |
| RuleSubmission.RuleSubmissionService.ChangeFile | src/services/github/RuleSubmissionService.ts:88-108 | the trace is the run of the file calls with the SHA the lookup answered; the result is the first refusal, or success |
| RuleSubmission.ProposalRun | src/services/github/RuleSubmissionService.ts:31-66 | the proposal stops inside the branch calls, or inside the file calls after the branch calls were accepted, or runs on to the pull request |
| RuleSubmissionHook.Issues | src/hooks/useRuleSubmission.ts:16-23 | a field is flagged exactly when it is listed and misses its bound |
| RuleSubmissionHook.NoSchemaIssues | src/hooks/useRuleSubmission.ts:16-23 | no issues exactly when every field meets its bound |
| RuleSubmissionHook.SchemaIssues | src/hooks/useRuleSubmission.ts:16-23 | flags exactly the fields under their minimum lengths (title 5, one category, tags 2, author 2, content 50) |
| RuleSubmissionHook.SectionTemplate | src/hooks/useRuleSubmission.ts:80-83 | a template starts with a newline and holds its heading |
| RuleSubmissionHook.InsertSection | src/hooks/useRuleSubmission.ts:79-85 | the old content followed by exactly the section's template; the inserted section is detected afterwards, and so is any detected before |
| RuleSubmissionHook.TitleFileSlug | src/hooks/useRuleSubmission.ts:167 | no longer than the title, with no white space and no upper-case ASCII letter |
| RuleSubmissionHook.TitleFileSlugAround | src/hooks/useRuleSubmission.ts:167 | a character other than white space is kept lower-cased, between the file names of the text before and after it |
| RuleSubmissionHook.TitleFileSlugRun | src/hooks/useRuleSubmission.ts:167 | a run of white space becomes one hyphen |
| RuleSubmissionHook.TitleFileSlugIdempotent | src/hooks/useRuleSubmission.ts:167 | deriving the file name twice changes nothing more |
| RuleSubmissionHook.FileName | src/hooks/useRuleSubmission.ts:153-168 | `rules/…md`: the edited slug's path when editing, else the title's slug |
| RuleSubmissionHook.EditPathReadsBack | src/hooks/useRuleSubmission.ts:156 | the corpus reads the edited file back under the edited slug |
| RuleSubmissionHook.TagList | src/hooks/useRuleSubmission.ts:151 | one trimmed, comma-free piece per comma-separated piece, empty ones kept |
| RuleSubmissionHook.TagListOfJoined | src/hooks/useRuleSubmission.ts:47 | tags loaded into the box with `join(', ')` parse back into the same tags |
| RuleSubmissionHook.IssueTitle | src/hooks/useRuleSubmission.ts:118-121 | the issue title ends with the rule title |
| RuleSubmissionHook.CommonParams | src/hooks/useRuleSubmission.ts:170-179 | the service receives the derived file name and the parsed tags |
| RuleSubmissionHook.SubmissionRequest | src/hooks/useRuleSubmission.ts:107-196 | an issue exactly without the public token (owner and repo defaulting to `depari`/`srules`); an update exactly with a token while editing, at the edited path; otherwise a proposal at the title's path |
| RuleSubmissionHook.SubmitForm | src/hooks/useRuleSubmission.ts:107-197 | without a token, the issue and no call; otherwise the trace is the run of the proposal or update plan, and the result is the first refused call's error or the decoded pull request |
| RuleSubmissionHook.FallbackTitleIsPRTitle | src/hooks/useRuleSubmission.ts:118-121 | the issue title equals the pull-request title the service would use for the same form |
| SubmitPage.PageSchemaIssues | src/app/submit/page.tsx:12-19 | flags exactly the fields out of bounds (title 5..100, one category, tags 1, author 2, content 50) |
| SubmitPage.PageBoundsTitle | src/app/submit/page.tsx:13 | the page's title bound implies the hook's; a title over 100 characters passes the hook and fails the page |
| SubmitPage.PageTemplate | src/app/submit/page.tsx:61-64 | a template starts with its heading and ends with an empty line |
| SubmitPage.Separator | src/app/submit/page.tsx:67 | nothing for empty content or content ending in an empty line; one newline after a single one; two otherwise; non-empty content then ends in an empty line |
| SubmitPage.PageInsertSection | src/app/submit/page.tsx:59-70 | the old content, its separator and the section's template; the section is detected, as is any detected before; the result ends in an empty line |
| SubmitPage.InsertAfterInsert | src/app/submit/page.tsx:67 | a second insert follows the first directly, with no separator |
| SubmitPage.InsertedSectionsPass | src/app/submit/page.tsx:84-87 | inserting both sections, in either order, passes the section check |
| SubmitPage.GateAgreesWithValidator | src/app/submit/page.tsx:84 | the page's section check passes exactly when the validator reports neither missing section |
| SubmitPage.PageTags | src/app/submit/page.tsx:94 | the non-empty trimmed pieces of the hook's parse, in order, each as many times as it occurs there |
| SubmitPage.PageTagsOfJoined | src/app/submit/page.tsx:94 | tags joined with `, ` parse back into the same tags, the empty list included |
| SubmitPage.EmptyPieceBetweenCommas | src/app/submit/page.tsx:94 | `a,,b` keeps an empty tag in the hook and drops it on the page |
| SubmitPage.PageParams | src/app/submit/page.tsx:101-108 | the client receives the page's tags and the difficulty's name |
| SubmitPage.TestModeLines | src/app/submit/page.tsx:116-124 | nine lines between `---` delimiters |
| SubmitPage.TestModeReadsBack | src/app/submit/page.tsx:115-126 | with single-line fields, the printed frontmatter splits back into its lines |
| SubmitPage.OnSubmit | src/app/submit/page.tsx:82-161 | a missing section stops before any call; no token gives the test-mode markdown with no call; otherwise the outcome of the client's `submitRule` |
| SubmitPage.HandleSubmit | src/app/submit/page.tsx:47-48 | data the schema rejects gives its issues and makes no call; other data goes to `OnSubmit` |
| SubmitClient.ToggleCategory | src/components/submit/SubmitClient.tsx:48-53 | membership of the category flips; an absent one is appended; a present one goes everywhere; the other categories keep their order |
| SubmitClient.ToggleTwice | src/components/submit/SubmitClient.tsx:48-53 | toggling an unselected category twice gives the selection back |
| SubmitClient.ToggleKeepsDistinct | src/components/submit/SubmitClient.tsx:48-53 | a selection without repeats keeps none |

## Left out

- `JSON.stringify`/`JSON.parse` are a codec that is assumed to round-trip. JSON itself is not modelled.
- YAML frontmatter values: numbers are integers only, and nested mappings are not modelled. A value such as `version: 1.5` or a nested map has no representation in `Yaml.Value`.
- `localStorage.setItem` quota errors and other storage exceptions are not modelled. `console.error` is left out.
- LocalStorage.SeparatorFreePrefixesSeparate: prefixes are proved separate only when they hold no `_`. `PrefixesCanCollide` shows the general case fails. The source itself only uses `srules`.
- The `favorites-updated` event and the deprecated `storage.ts` wrappers are not part of this model.
- The singletons `getFavoriteService` and `getRecentViewService` are modelled by the `Default` constructors, not as module-level instances.
- `getFavorites` and `getRecentViews` are plain reads and have no contract of their own.
- Rules.AllRules: dates that parse to `NaN` are not modelled; the time is a parameter.
- Rules.AllRules, Rules.CreateExcerpt: the markdown-stripping regex chain of `createExcerpt` is a parameter. Only the newline replacement, trim and truncation are modelled.
- Rules.GetRuleBySlug: the walk is given as a list of already-parsed files. `fs` and `gray-matter` are not modelled.
- `markdownToHtml` is not modelled.
- Directory walks in the three scripts are given as the list of files they visit. Reading files, writing the JSON outputs, `console` output and `process.exit` are left out. `ValidateAll` returns the exit code instead.
- `execSync` of `git log` is the optional log text: `None` when the command throws.
- ValidateRule.ErrorsEmptyIff, SearchIndex.IndexExcerpt, RuleSubmissionHook.SchemaIssues, SubmitPage.PageSchemaIssues: lengths count code points, not UTF-16 code units.
- GitHubClient.TitleSlug: `toLowerCase` is modelled for ASCII only. Other letters count as non-slug characters and become hyphens.
- Rules.RulesByCategory, Rules.RulesByTag, Rules.FiltersIgnoreCase, RuleSubmissionHook.TitleFileSlug, GitHubClient.FilePath: these also lower-case with the ASCII-only `toLowerCase`. Non-ASCII letters are compared and written as they are.
- HTTP details are left out: `fetch`, URLs, headers, base64 encoding and JSON bodies. Each request is a `Call` value, and its answer comes from the `respond` function of the trace.
- The HTTP client layer behind `GitOperationsService` and `PullRequestService` is left out. So is `createGitHubServices`, which is not part of this model.
- The fallback issue's body and its URL encoding are left out; only its owner, repository and title are modelled. `window.open`, `alert`, `setTimeout` and React state are left out.
- The hook's catch-and-alert after a failed submission is left out.
- The React Query mutations are modelled as direct calls to the service they wrap (`RuleSubmissionHook.SubmitForm`). The pending flags and the fallback issue's URL handed to `setPrUrl` are left out.
- `useRuleLoader` and `useMarkdownPreview` are left out: fetching, React effects, `marked`. The `tags.join(', ')` of the loader is used in `TagListOfJoined`.
- Search (Fuse.js), debouncing and page rendering are not part of this model.

# mordecai-dashboard: the data logic, in Dafny

This is a Dafny model of the parts of the Mordecai dashboard that compute something. The dashboard is a Next.js web interface over an agent's activity log, its memory document and its status files. The model covers:

- **The activity query** (`GET /api/activity`). The JSON-Lines log is cut into its non-empty lines, and every line is parsed. The list is reversed so the newest entry comes first. It is then narrowed by type, channel and a case-insensitive search, and one page is returned with `total` and `hasMore`.
- **The memory search** (`GET /api/memory`). The stored entries are narrowed by a lowercased search over title, content and tags. The totals are returned as stored.
- **The overview page**:
  - `formatUptime`;
  - the `recentActivity` window (the first 14 log lines, in file order);
  - the per-type `typeCounts` reduce;
  - the count-sorted `typeDistribution` and its first five rows;
  - the 12-line live feed.
- **The memory viewer**:
  - `formatBytes`;
  - `highlightSearch`, which splits a string around a case-insensitive literal term into plain and marked parts;
  - the rule chain that gives each markdown line its kind.
- **The sidebar**:
  - which navigation item is active for a path;
  - the collapse toggle, with the labels, tooltips and button label it controls.

`JSON.parse` is a parameter: a function from a line to `Option<Entry>`, where `None` means it throws. A file that may be missing is an `Option<string>`. Lowercasing is ASCII. The field `type` of an activity entry is called `kind`, since `type` is a Dafny keyword.

Modules:

| module | file | models |
|---|---|---|
| `Wrappers` | wrappers.dfy | `Option` |
| `Seqs` | seqs.dfy | `filter`, `reverse` and `slice` with JavaScript's index clamping, and subsequences |
| `Text` | text.dfy | ASCII lowercase, `includes`, `split`/`join` on one character, and decimal rendering and reading of integers |
| `ActivityLog` | activity.dfy | app/api/activity/route.ts |
| `MemoryApi` | memory_api.dfy | app/api/memory/route.ts |
| `Overview` | overview.dfy | app/page.tsx |
| `MemoryViewer` | memory_viewer.dfy | app/memory/page.tsx |
| `Navigation` | sidebar.dfy | components/sidebar.tsx |

Two behaviours of the code are worth stating outright:

- **A log line that does not parse.** `JSON.parse` throws inside the `try`, so the whole request becomes the 500 response. `ActivityLog.Query` returns `ReadFailure` exactly when some non-empty line fails to parse.
- **The overview window.** The overview page does not reverse the log. Its "recent activity" is the oldest 14 lines of the file (`Overview.RecentInFileOrder`). A line that does not parse there is not caught: it makes the page itself fail, modelled as `None`.

## Model

| member | source | states |
|---|---|---|
| Text.NonEmptyLinesSpec | app/api/activity/route.ts:22-24 | The kept lines are the lines of the text that are non-empty, in order, each as often as it occurs; none is empty or holds a newline. |
| ActivityLog.ParseAll | app/api/activity/route.ts:22-25 | The parse succeeds iff every line parses. The result has one entry per line, and entry k is the parse of line k. |
| ActivityLog.Query | app/api/activity/route.ts:6-53 | A missing log gives an empty page (total 0, hasMore false) with page and pageSize echoed. With a log, the 500 failure happens iff some non-empty line fails to parse. Every page echoes the requested page and pageSize (defaults 1 and 25). |
| ActivityLog.EntriesNewestFirst | app/api/activity/route.ts:22-26 | The entries are the parsed non-empty lines in reverse file order: entry k is the parse of line n-1-k. |
| ActivityLog.ByKindSpec | app/api/activity/route.ts:29 | The type filter keeps, in order, exactly the entries whose type equals the parameter. An absent or empty parameter keeps everything. |
| ActivityLog.ByChannelSpec | app/api/activity/route.ts:30 | The same holds for the channel. An entry without a channel never equals a given one. |
| ActivityLog.BySearchSpec | app/api/activity/route.ts:31-35 | The search keeps exactly the entries whose lowercased summary, raw type or lowercased agent id contains the term. A missing agent id is no match. An empty term keeps everything. |
| ActivityLog.NarrowSpec | app/api/activity/route.ts:29-35 | The three filters in sequence equal one filter by their conjunction. |
| ActivityLog.NarrowKeepsExactlySelected | app/api/activity/route.ts:29-35 | An entry survives iff it was present and passes all three tests. The survivors are a subsequence of the input, so their order is kept. |
| ActivityLog.MatchesNewestFirst | app/api/activity/route.ts:26-35 | Filtering the reversed list equals reversing the filtered file-order list. |
| ActivityLog.PaginateSpec | app/api/activity/route.ts:37-46 | For page ≥ 1 and size ≥ 1: total is the number of matches, and items is the window matches[start..start+size) clipped to the end, or [] past the end. Also \|items\| ≤ size and \|items\| ≤ total. hasMore ⇔ start+size < total ⇔ start+\|items\| < total, and hasMore implies a full page. |
| ActivityLog.QueryPage | app/api/activity/route.ts:21-46 | When every non-empty line parses and page and size are at least 1: total is the number of matching entries; items is the window of the newest-first matches from (page-1)·size, clipped to the end, or [] past the end; hasMore ⇔ the window ends before the last match. |
| ActivityLog.QueryEverything | app/api/activity/route.ts:12-46 | With no filter and a first page as large as the log, every entry is returned once, newest first, and hasMore is false. |
| ActivityLog.SearchIgnoresQueryCase | app/api/activity/route.ts:11 | A query and its lowercased form give the same response. |
| ActivityLog.ThreeLineEntries | app/api/activity/route.ts:22-26 | Lines A, B, C (each ending in a newline) are listed C, B, A. The empty text after the last newline is dropped. |
| ActivityLog.ThreeLineScenario | app/api/activity/route.ts:22-46 | For that log: the default page gives [C,B,A]; page 1 of size 2 gives [C,B] with hasMore; page 2 gives [A] without; page 99 gives [] with total 3. |
| ActivityLog.SearchScenario | app/api/activity/route.ts:31-35 | A tool entry by agent `sub-1` with summary "Ran linter" is found by `linter`, `tool` and `sub-1`, and not by `compiler`. |
| MemoryApi.Search | app/api/memory/route.ts:5-38 | A missing document gives no entries, size 0 and no consolidation date. The 500 failure happens iff the document does not parse. Otherwise size and consolidation date are passed through as stored, and the entries are a subsequence of the stored ones. |
| MemoryApi.SearchSelects | app/api/memory/route.ts:19-26 | With no search, or an empty one, the stored entries are returned unchanged. Otherwise an entry is listed iff it is stored and its lowercased title or content, or one of its tags as stored, contains the lowercased search; and it is listed exactly as many times as it is stored when it matches, never otherwise. |
| MemoryApi.TagsAreCaseSensitive | app/api/memory/route.ts:21-25 | `PLAN` finds title `Plan`. The search `Urgent` does not find a tag `Urgent`, but does find `urgent`. |
| Overview.UptimeBounds | app/page.tsx:35-38 | For seconds ≥ 0: days ≥ 0, hours < 24, minutes < 60, and d·86400 + h·3600 + m·60 ≤ seconds < that + 60. |
| Overview.ThreePartLabel | app/page.tsx:39 | A label `<d>d <h>h <m>m` splits on spaces into its three parts and reads back as (d, h, m). |
| Overview.TwoPartLabel | app/page.tsx:40 | A label `<h>h <m>m` splits into its two parts and reads back as (0, h, m). |
| Overview.OnePartLabel | app/page.tsx:41 | A label `<m>m` is one part and reads back as (0, 0, m). |
| Overview.UptimeLabel | app/page.tsx:35-41 | The label has a days part iff d > 0 and an hours part iff d > 0 or h > 0. The minutes part is always present. Reading the label back gives (d, h, m). |
| Overview.RecentActivity | app/page.tsx:76-80 | A missing log gives []. The page fails iff some non-empty line does not parse. Otherwise at most 14 entries. |
| Overview.RecentInFileOrder | app/page.tsx:79 | The window is the first min(n, 14) parsed lines in file order: entry k is the parse of line k. It equals the activity route's newest-first list turned back round and cut to 14. |
| Overview.Kinds | app/page.tsx:83-86 | The key list holds each type that occurs exactly once, and nothing else. |
| Overview.TallySpec | app/page.tsx:83-86 | A type is a key of `typeCounts` iff it occurs. Its count is its number of occurrences, at least 1. |
| Overview.CountTypes | app/page.tsx:83-86 | The reduce loop ends with the keys in first-appearance order and the counts equal to the tally. |
| Overview.TallyAdd | app/page.tsx:84 | One more entry adds 1 to its type's count (from 0 if new) and changes no other count. |
| Overview.SumOccKinds | app/page.tsx:83-86 | The counts of the distinct types sum to the number of entries. |
| Overview.SortByCount | app/page.tsx:93 | The sorted rows are a permutation of the input, with counts non-increasing. |
| Overview.SortKeepsTies | app/page.tsx:93 | The sort is stable: rows with any one count keep their input order. |
| Overview.DistributionKinds | app/page.tsx:89-93 | The distribution has exactly one row per type that occurs. |
| Overview.DistributionCounts | app/page.tsx:89-93 | Each row carries its type's count, at least 1, and the rows are sorted by count, largest first. |
| Overview.DistributionTies | app/page.tsx:89-93 | Rows with equal counts keep the key order of `typeCounts`. |
| Overview.DistributionSum | app/page.tsx:83-93 | The row counts sum to the number of recent entries. |
| Overview.TotalEntries | app/page.tsx:88 | Never 0: it is the number of entries when there are some, and exactly 1 when there are none. |
| Overview.MixShowsLargest | app/page.tsx:311 | At most five rows, a prefix of the distribution, and no row left out has a larger count than one shown. |
| Overview.Feed | app/page.tsx:393 | At most 12 entries, a prefix of the window, and the whole window when it has at most 12. |
| MemoryViewer.FormatBytesSmall | app/memory/page.tsx:14-15 | Below 1024 the label ends in ` B`, and the rest reads back as the byte count. |
| MemoryViewer.FormatBytesLarge | app/memory/page.tsx:16 | From 1024 up the label reads back as n tenths of a KB, where n is the nearest tenth with ties rounded up: 1024n − 512 ≤ 10·bytes < 1024n + 512. |
| MemoryViewer.EscapeIsLiteral | app/memory/page.tsx:105 | The escaped term is a pattern with no live metacharacter that matches exactly the term's characters. |
| MemoryViewer.SplitAroundConcat | app/memory/page.tsx:105 | The split pieces concatenate back to the text. |
| MemoryViewer.SplitAroundAlternates | app/memory/page.tsx:105 | Even pieces contain no case-insensitive occurrence of the term. Odd pieces are occurrences of it. |
| MemoryViewer.SplitAroundLeftmost | app/memory/page.tsx:105 | Occurrences are taken leftmost first and without overlap: no occurrence starts inside an even piece, even one running into the odd piece after it. |
| MemoryViewer.HighlightSearch | app/memory/page.tsx:103-104 | An empty term or empty text gives the text unchanged, as one plain part. |
| MemoryViewer.HighlightKeepsText | app/memory/page.tsx:103-114 | The highlighted parts spell the text unchanged. |
| MemoryViewer.HighlightMarksMatches | app/memory/page.tsx:105-112 | The parts alternate plain and marked. A part is marked iff its position is odd. Marked parts equal the term ignoring case, plain parts never contain it, and no occurrence starts inside a plain part before the mark that follows it. |
| MemoryViewer.RunFrom | app/memory/page.tsx:27 | `(.*)` captures the longest run without a line terminator: a prefix of the rest, free of terminators, followed by a terminator or the end. |
| MemoryViewer.LazyBold | app/memory/page.tsx:31 | The lazy `(.+?)\*\*` picks the first closing `**` with no line terminator before it, or fails iff every `**` has a terminator before it. |
| MemoryViewer.HeadingsDisjoint | app/memory/page.tsx:27-29 | No line matches two of the heading patterns. |
| MemoryViewer.HeadingShape | app/memory/page.tsx:27-29 | A heading is its marker, then a non-empty title free of line terminators, then the end or a terminator. |
| MemoryViewer.BoldBulletShape | app/memory/page.tsx:31 | A bold bullet is `- **`, a non-empty bold text with no terminator and no `**` starting inside it, `**`, then the rest of the line up to a terminator. |
| MemoryViewer.BoldBulletOf | app/memory/page.tsx:31 | Every `- **s**r` with s non-empty and free of `*`, and neither part holding a terminator, is a bold bullet capturing s and r. |
| MemoryViewer.SecondLevelHeading | app/memory/page.tsx:27-28 | `## Notes` is a second-level heading with title `Notes`, not a first-level one. |
| MemoryViewer.BareMarkerIsText | app/memory/page.tsx:27-95 | `#` and `# ` are ordinary text: a heading needs a character after the space. |
| MemoryViewer.UnclosedBoldIsBullet | app/memory/page.tsx:30-31 | `- **open` has no closing `**`, so it is a plain bullet with item `**open`. |
| MemoryViewer.FenceLine | app/memory/page.tsx:32 | A line opening with three backticks is a code fence. |
| MemoryViewer.IndentedAndBlank | app/memory/page.tsx:81-88 | A tab-indented line is indented code, and the empty line is blank. |
| MemoryViewer.CarriageReturnEndsTitle | app/memory/page.tsx:27 | In `# Title\r` the title is `Title`: the carriage return is not captured. |
| MemoryViewer.RenderLines | app/memory/page.tsx:25-97 | One block per line, in order, each the rendering of its line. |
| MemoryViewer.RenderOneBlockPerLine | app/memory/page.tsx:21-25 | Every line of `content.split('\n')`, empty ones included, gives exactly one block. The lines joined by line feeds are the content. |
| Navigation.RootOnlyOnRoot | components/sidebar.tsx:77-78 | The Overview item is active iff the path is exactly `/`, and no other item is active there. |
| Navigation.AtMostOneActive | components/sidebar.tsx:76-79 | For any path, at most one of the five items is active. |
| Navigation.PrefixMatching | components/sidebar.tsx:79 | Matching is by plain string prefix: `/activity`, `/activity/x` and `/activityfoo` activate Activity; `/` does not, and `/activity` does not activate Overview. |
| Navigation.Sidebar.constructor | components/sidebar.tsx:29 | The sidebar starts expanded, with labels shown. |
| Navigation.Sidebar.Toggle | components/sidebar.tsx:150 | A click negates `collapsed` and so flips whether labels show. |
| Navigation.Sidebar.ToggleTwice | components/sidebar.tsx:150 | Two clicks restore the state and the button's label. |
| Navigation.LabelOrTooltip | components/sidebar.tsx:86-156 | While expanded a link shows its label and no tooltip. While collapsed it hides the label and its tooltip is the label. The button offers the opposite of the current state. |

## Left out

- File reading, `existsSync`, `process.cwd()` paths, HTTP responses, `console.error` and the `timestamp` field. A file is present or not, as an `Option<string>` input.
- `JSON.parse` itself. It is a parameter, and a failure aborts the request or page. So are the fields of an entry other than those the logic reads.
- `parseInt` yielding `NaN` for a non-numeric `page` or `pageSize`. The parameters are modelled as integers. Negative and zero values go through JavaScript's `slice` clamping exactly.
- `toLowerCase` beyond ASCII, and JavaScript regular expressions in general. Only the patterns used here are modelled, each by its own function, with ASCII case-insensitive literal matching.
- Overview.UptimeBounds: only whole, non-negative seconds. A fractional or negative uptime from the status file is not modelled.
- MemoryViewer.FormatBytesLarge: only whole byte counts below 10²¹ KB, where `toFixed` prints plain digits. Exponent notation is not modelled.
- The floating-point percentages `pct` and `memPct`, `formatTokens`, the sparkline heights and colours, and all date formatting (`format`, `formatDistanceToNow`). These are display arithmetic on floats and clocks.
- Overview.CountTypes: counts every type name from 0. On the `{}` literal the source reads inherited `Object.prototype` members, so a type named `constructor`, `toString` or another such member starts from that member instead of 0, and `__proto__` never becomes a key. The model holds only for type names that are not `Object.prototype` members; nothing checks the parsed `type` against the declared type list.
- JavaScript's ordering of integer-like object keys. `Overview.CountTypes` keeps keys in insertion order, which is what `Object.entries` gives for non-numeric type names.
- React state other than the sidebar's `collapsed` flag: memory-page selection, fetching, page transitions and all styling tables (`typeColors`, `typePrefix`, `fileIcons`).
- The routes that only pass a file through (daily, agents, system, status), since they have no logic.

/**
 * The activity log query behind `GET /api/activity`: the append-only
 * JSON-Lines log is split into non-empty lines, every line is parsed, the
 * entries are put newest first, narrowed by the optional type, channel and
 * search parameters (all of which must hold), and one page is cut out.
 */
module ActivityLog {
  import opened Wrappers
  import opened Seqs
  import opened Text

  /** One log record. `kind` is the record's `type` field. */
  datatype Entry = Entry(
    id: string,
    timestamp: string,
    kind: string,
    channel: Option<string>,
    status: string,
    summary: string,
    agentId: Option<string>)

  /** The query string after `parseInt`; `None` is a parameter that is absent. */
  datatype Params = Params(
    kind: Option<string>,
    channel: Option<string>,
    search: Option<string>,
    page: Option<int>,
    pageSize: Option<int>)

  /** The JSON body: one page, or the 500 response `Failed to read activity log`. */
  datatype Response =
    | Page(items: seq<Entry>, total: nat, page: int, pageSize: int, hasMore: bool)
    | ReadFailure

  const DEFAULT_PAGE := 1
  const DEFAULT_PAGE_SIZE := 25

  function PageOf(q: Params): int {
    q.page.GetOr(DEFAULT_PAGE)
  }

  function PageSizeOf(q: Params): int {
    q.pageSize.GetOr(DEFAULT_PAGE_SIZE)
  }

  /** A string parameter is in force when present and non-empty (JavaScript truthiness). */
  predicate Given(p: Option<string>) {
    p.Some? && p.value != []
  }

  /** The search parameter, lowercased once. */
  function SearchTerm(q: Params): string {
    if q.search.Some? then LowerStr(q.search.value) else []
  }

  /**
   * `lines.map(line => JSON.parse(line))`: all lines parse, or the first failure
   * aborts the whole request.
   */
  function ParseAll(lines: seq<string>, parse: string -> Option<Entry>): (r: Option<seq<Entry>>)
    ensures r.Some? <==> forall k :: 0 <= k < |lines| ==> parse(lines[k]).Some?
    ensures r.Some? ==> |r.value| == |lines|
    ensures r.Some? ==> forall k :: 0 <= k < |lines| ==> Some(r.value[k]) == parse(lines[k])
    decreases |lines|
  {
    if lines == [] then Some([])
    else match parse(lines[0])
      case None => None
      case Some(e) =>
        match ParseAll(lines[1..], parse)
        case None => None
        case Some(rest) => Some([e] + rest)
  }

  /** The parsed log, most recent first. */
  function Entries(raw: string, parse: string -> Option<Entry>): Option<seq<Entry>> {
    match ParseAll(NonEmptyLines(raw), parse)
    case None => None
    case Some(parsed) => Some(Reverse(parsed))
  }

  /** The search test: lowercased summary, raw type, lowercased agent id; no agent id is no match. */
  predicate MatchesSearch(e: Entry, term: string) {
    || Contains(LowerStr(e.summary), term)
    || Contains(e.kind, term)
    || (e.agentId.Some? && Contains(LowerStr(e.agentId.value), term))
  }

  /** `if (type) entries = entries.filter(e => e.type === type)` */
  function ByKind(entries: seq<Entry>, kind: Option<string>): seq<Entry> {
    if Given(kind) then Filter(entries, (e: Entry) => e.kind == kind.value) else entries
  }

  /** `if (channel) entries = entries.filter(e => e.channel === channel)` */
  function ByChannel(entries: seq<Entry>, channel: Option<string>): seq<Entry> {
    if Given(channel) then Filter(entries, (e: Entry) => e.channel == channel) else entries
  }

  /** `if (search) entries = entries.filter(...)` with the already lowercased term. */
  function BySearch(entries: seq<Entry>, term: string): seq<Entry> {
    if term != [] then Filter(entries, (e: Entry) => MatchesSearch(e, term)) else entries
  }

  /** The three filters, applied one after the other. */
  function Narrow(entries: seq<Entry>, q: Params): seq<Entry> {
    BySearch(ByChannel(ByKind(entries, q.kind), q.channel), SearchTerm(q))
  }

  predicate KindOk(e: Entry, kind: Option<string>) {
    Given(kind) ==> e.kind == kind.value
  }

  predicate ChannelOk(e: Entry, channel: Option<string>) {
    Given(channel) ==> e.channel == channel
  }

  predicate SearchOk(e: Entry, term: string) {
    term != [] ==> MatchesSearch(e, term)
  }

  /** An entry passes every filter in force. */
  predicate Selected(e: Entry, q: Params) {
    KindOk(e, q.kind) && ChannelOk(e, q.channel) && SearchOk(e, SearchTerm(q))
  }

  /** Where page `page` begins: `(page - 1) * pageSize`, never negative for a page and size of at least 1. */
  function PageStart(page: int, pageSize: int): (start: int)
    ensures page >= 1 && pageSize >= 1 ==> start >= 0
  {
    (page - 1) * pageSize
  }

  /** `total`, the page slice starting at `(page - 1) * pageSize`, and `hasMore`. */
  function Paginate(matching: seq<Entry>, page: int, pageSize: int): Response {
    var total := |matching|;
    var start := PageStart(page, pageSize);
    Page(JsSlice(matching, start, start + pageSize), total, page, pageSize, start + pageSize < total)
  }

  function Query(raw: Option<string>, q: Params, parse: string -> Option<Entry>): (r: Response)
    ensures raw.None? ==> r == Page([], 0, PageOf(q), PageSizeOf(q), false)
    ensures raw.Some? ==>
      (r.ReadFailure? <==>
        exists k :: 0 <= k < |NonEmptyLines(raw.value)| && parse(NonEmptyLines(raw.value)[k]).None?)
    ensures r.Page? ==> r.page == PageOf(q) && r.pageSize == PageSizeOf(q)
  {
    match raw
    case None => Page([], 0, PageOf(q), PageSizeOf(q), false)
    case Some(text) =>
      match Entries(text, parse)
      case None => ReadFailure
      case Some(entries) => Paginate(Narrow(entries, q), PageOf(q), PageSizeOf(q))
  }

  /** The entries are the parsed non-empty lines in reverse file order: the last line appended comes first. */
  lemma EntriesNewestFirst(raw: string, parse: string -> Option<Entry>)
    ensures Entries(raw, parse).Some? <==>
      forall k :: 0 <= k < |NonEmptyLines(raw)| ==> parse(NonEmptyLines(raw)[k]).Some?
    ensures Entries(raw, parse).Some? ==>
      var lines, es := NonEmptyLines(raw), Entries(raw, parse).value;
      && |es| == |lines|
      && forall k :: 0 <= k < |es| ==> Some(es[k]) == parse(lines[|lines| - 1 - k])
  {
    var lines := NonEmptyLines(raw);
    if ParseAll(lines, parse).Some? {
      var parsed := ParseAll(lines, parse).value;
      forall k | 0 <= k < |parsed|
        ensures Some(Reverse(parsed)[k]) == parse(lines[|lines| - 1 - k])
      {
        ReverseAt(parsed, k);
      }
    }
  }

  lemma ByKindSpec(entries: seq<Entry>, kind: Option<string>)
    ensures ByKind(entries, kind) == Filter(entries, (e: Entry) => KindOk(e, kind))
  {
    if Given(kind) {
      FilterExt(entries, (e: Entry) => e.kind == kind.value, (e: Entry) => KindOk(e, kind));
    } else {
      FilterAll(entries, (e: Entry) => KindOk(e, kind));
    }
  }

  lemma ByChannelSpec(entries: seq<Entry>, channel: Option<string>)
    ensures ByChannel(entries, channel) == Filter(entries, (e: Entry) => ChannelOk(e, channel))
  {
    if Given(channel) {
      FilterExt(entries, (e: Entry) => e.channel == channel, (e: Entry) => ChannelOk(e, channel));
    } else {
      FilterAll(entries, (e: Entry) => ChannelOk(e, channel));
    }
  }

  lemma BySearchSpec(entries: seq<Entry>, term: string)
    ensures BySearch(entries, term) == Filter(entries, (e: Entry) => SearchOk(e, term))
  {
    if term != [] {
      FilterExt(entries, (e: Entry) => MatchesSearch(e, term), (e: Entry) => SearchOk(e, term));
    } else {
      FilterAll(entries, (e: Entry) => SearchOk(e, term));
    }
  }

  /**
   * The filters combine as AND: together they keep exactly the entries that pass
   * all of them; an absent or empty parameter filters nothing.
   */
  lemma {:induction false} NarrowSpec(entries: seq<Entry>, q: Params)
    ensures Narrow(entries, q) == Filter(entries, (e: Entry) => Selected(e, q))
  {
    var kindOk := (e: Entry) => KindOk(e, q.kind);
    var channelOk := (e: Entry) => ChannelOk(e, q.channel);
    var searchOk := (e: Entry) => SearchOk(e, SearchTerm(q));
    var kindChannelOk := (e: Entry) => KindOk(e, q.kind) && ChannelOk(e, q.channel);
    var byKind := ByKind(entries, q.kind);
    var byChannel := ByChannel(byKind, q.channel);
    ByKindSpec(entries, q.kind);
    ByChannelSpec(byKind, q.channel);
    BySearchSpec(byChannel, SearchTerm(q));
    FilterAnd(entries, kindOk, channelOk, kindChannelOk);
    FilterAnd(entries, kindChannelOk, searchOk, (e: Entry) => Selected(e, q));
  }

  /** What the filters return: selected entries only, every selected entry, original relative order. */
  lemma NarrowKeepsExactlySelected(entries: seq<Entry>, q: Params)
    ensures forall e :: e in Narrow(entries, q) <==> e in entries && Selected(e, q)
    ensures IsSubseq(Narrow(entries, q), entries)
  {
    NarrowSpec(entries, q);
    FilterIsSubseq(entries, (e: Entry) => Selected(e, q));
    FilterMembers(entries, (e: Entry) => Selected(e, q));
    var r := Narrow(entries, q);
    forall e
      ensures e in r <==> e in entries && Selected(e, q)
    {
      if e in r {
        var i :| 0 <= i < |r| && r[i] == e;
      }
      if e in entries && Selected(e, q) {
        var i :| 0 <= i < |entries| && entries[i] == e;
      }
    }
  }

  /** Matching then reversing is reversing then matching: the matches come newest first. */
  lemma MatchesNewestFirst(parsed: seq<Entry>, q: Params)
    ensures Narrow(Reverse(parsed), q) == Reverse(Filter(parsed, (e: Entry) => Selected(e, q)))
  {
    NarrowSpec(Reverse(parsed), q);
    FilterReverse(parsed, (e: Entry) => Selected(e, q));
  }

  /**
   * Pagination: `total` counts every match, `items` is the window of the matches
   * starting at `(page - 1) * pageSize`, and `hasMore` says that matches remain after it.
   */
  lemma PaginateSpec(matching: seq<Entry>, page: int, size: int)
    requires page >= 1 && size >= 1
    ensures
      var r := Paginate(matching, page, size);
      var start := PageStart(page, size);
      && r.Page?
      && r.total == |matching|
      && |r.items| <= size
      && |r.items| <= r.total
      && (start >= r.total ==> r.items == [])
      && (start < r.total ==> r.items == matching[start..if start + size < r.total then start + size else r.total])
      && (r.hasMore <==> start + size < r.total)
      && (r.hasMore <==> start + |r.items| < r.total)
      && (r.hasMore ==> |r.items| == size)
  {
    var start := PageStart(page, size);
    JsSliceWindow(matching, start, start + size);
  }

  /**
   * The route end to end: when every non-empty line parses, the response counts
   * the matching entries, newest first, and returns the requested window of them.
   */
  lemma QueryPage(raw: string, q: Params, parse: string -> Option<Entry>)
    requires ParseAll(NonEmptyLines(raw), parse).Some?
    requires PageOf(q) >= 1 && PageSizeOf(q) >= 1
    ensures
      var parsed := ParseAll(NonEmptyLines(raw), parse).value;
      var m := Reverse(Filter(parsed, (e: Entry) => Selected(e, q)));
      var size := PageSizeOf(q);
      var start := (PageOf(q) - 1) * size;
      var r := Query(Some(raw), q, parse);
      && r.Page?
      && r.total == |m|
      && (start >= |m| ==> r.items == [])
      && start >= 0
      && (start < |m| ==> r.items == m[start..if start + size < |m| then start + size else |m|])
      && (r.hasMore <==> start + size < |m|)
  {
    var parsed := ParseAll(NonEmptyLines(raw), parse).value;
    var matching := Narrow(Reverse(parsed), q);
    assert Entries(raw, parse) == Some(Reverse(parsed));
    assert Query(Some(raw), q, parse) == Paginate(matching, PageOf(q), PageSizeOf(q));
    MatchesNewestFirst(parsed, q);
    PaginateSpec(matching, PageOf(q), PageSizeOf(q));
  }

  /** With no filter in force and a first page large enough, every entry is returned once, newest first. */
  lemma QueryEverything(raw: string, q: Params, parse: string -> Option<Entry>)
    requires Entries(raw, parse).Some?
    requires !Given(q.kind) && !Given(q.channel) && SearchTerm(q) == []
    requires PageOf(q) == 1 && PageSizeOf(q) >= |NonEmptyLines(raw)|
    ensures Query(Some(raw), q, parse) == Page(Entries(raw, parse).value, |NonEmptyLines(raw)|, 1, PageSizeOf(q), false)
  {
    EntriesNewestFirst(raw, parse);
  }

  /** The search parameter is case-insensitive: it is lowercased before any comparison. */
  lemma SearchIgnoresQueryCase(raw: Option<string>, q: Params, parse: string -> Option<Entry>)
    requires q.search.Some?
    ensures Query(raw, q, parse) == Query(raw, q.(search := Some(LowerStr(q.search.value))), parse)
  {
    var q' := q.(search := Some(LowerStr(q.search.value)));
    LowerStrIdempotent(q.search.value);
    assert SearchTerm(q') == SearchTerm(q);
    assert forall es :: Narrow(es, q') == Narrow(es, q);
  }

  /** The log text holding the given lines, each terminated by a newline. */
  function LogOf(lines: seq<string>): string {
    if lines == [] then [] else lines[0] + "\n" + LogOf(lines[1..])
  }

  lemma ThreeLinesSplit(la: string, lb: string, lc: string)
    requires '\n' !in la && '\n' !in lb && '\n' !in lc
    ensures Split(LogOf([la, lb, lc]), '\n') == [la, lb, lc, ""]
  {
    var parts := [la, lb, lc, ""];
    assert [la, lb, lc][1..] == [lb, lc];
    assert [lb, lc][1..] == [lc];
    assert LogOf([lc]) == lc + "\n";
    assert Join(parts, '\n') == LogOf([la, lb, lc]) by {
      assert parts[1..] == [lb, lc, ""];
      assert parts[1..][1..] == [lc, ""];
      assert Join([lc, ""], '\n') == lc + "\n";
    }
    SplitJoin(parts, '\n');
  }

  lemma ThreeLinesFilter(la: string, lb: string, lc: string)
    requires la != [] && lb != [] && lc != []
    ensures Filter([la, lb, lc, ""], NonEmpty) == [la, lb, lc]
  {
    assert Filter([""], NonEmpty) == [];
    assert [lc, ""][1..] == [""];
    assert Filter([lc, ""], NonEmpty) == [lc];
    assert [lb, lc, ""][1..] == [lc, ""];
    assert Filter([lb, lc, ""], NonEmpty) == [lb, lc];
    assert [la, lb, lc, ""][1..] == [lb, lc, ""];
  }

  /** Three lines appended in the order A, B, C are read back as C, B, A. */
  lemma ThreeLineEntries(la: string, lb: string, lc: string, parse: string -> Option<Entry>, a: Entry, b: Entry, c: Entry)
    requires la != [] && lb != [] && lc != []
    requires '\n' !in la && '\n' !in lb && '\n' !in lc
    requires parse(la) == Some(a) && parse(lb) == Some(b) && parse(lc) == Some(c)
    ensures Entries(LogOf([la, lb, lc]), parse) == Some([c, b, a])
  {
    var lines := [la, lb, lc];
    ThreeLinesSplit(la, lb, lc);
    ThreeLinesFilter(la, lb, lc);
    assert NonEmptyLines(LogOf(lines)) == lines;
    var parsed := ParseAll(lines, parse);
    assert parsed.Some? by {
      forall k | 0 <= k < 3
        ensures parse(lines[k]).Some?
      {
      }
    }
    assert Some(parsed.value[0]) == parse(lines[0]);
    assert Some(parsed.value[1]) == parse(lines[1]);
    assert Some(parsed.value[2]) == parse(lines[2]);
    assert parsed.value == [a, b, c];
    assert Reverse([a, b, c]) == [c, b, a] by {
      assert [a, b, c][1..] == [b, c];
      assert [b, c][1..] == [c];
      assert Reverse([c]) == [c];
      assert Reverse([b, c]) == [c, b];
    }
  }

  /** Lines appended in the order A, B, C are listed C, B, A and paged two at a time. */
  lemma ThreeLineScenario(la: string, lb: string, lc: string, parse: string -> Option<Entry>, a: Entry, b: Entry, c: Entry)
    requires la != [] && lb != [] && lc != []
    requires '\n' !in la && '\n' !in lb && '\n' !in lc
    requires parse(la) == Some(a) && parse(lb) == Some(b) && parse(lc) == Some(c)
    ensures
      var log := Some(LogOf([la, lb, lc]));
      var noParams := Params(None, None, None, None, None);
      && Query(log, noParams, parse) == Page([c, b, a], 3, 1, 25, false)
      && Query(log, noParams.(page := Some(1), pageSize := Some(2)), parse) == Page([c, b], 3, 1, 2, true)
      && Query(log, noParams.(page := Some(2), pageSize := Some(2)), parse) == Page([a], 3, 2, 2, false)
      && Query(log, noParams.(page := Some(99)), parse) == Page([], 3, 99, 25, false)
  {
    ThreeLineEntries(la, lb, lc, parse, a, b, c);
    var es := [c, b, a];
    var noParams := Params(None, None, None, None, None);
    var q1 := noParams.(page := Some(1), pageSize := Some(2));
    var q2 := noParams.(page := Some(2), pageSize := Some(2));
    var q99 := noParams.(page := Some(99));
    assert Narrow(es, noParams) == es;
    assert Narrow(es, q1) == es;
    assert Narrow(es, q2) == es;
    assert Narrow(es, q99) == es;
    assert Paginate(es, 1, 25) == Page([c, b, a], 3, 1, 25, false);
    assert Paginate(es, 1, 2) == Page([c, b], 3, 1, 2, true);
    assert Paginate(es, 2, 2) == Page([a], 3, 2, 2, false);
    assert Paginate(es, 99, 25) == Page([], 3, 99, 25, false);
  }

  lemma SummaryHasLinter()
    ensures Contains(LowerStr("Ran linter"), "linter")
  {
    var summary := "Ran linter";
    var low := LowerStr(summary);
    assert forall k :: 4 <= k < 10 ==> low[k] == summary[k];
    assert low[4..10] == "linter";
    ContainsIff(low, "linter");
    assert OccursAt(low, "linter", 4);
  }

  lemma NoCompiler(s: string)
    requires |s| < 8 || 'c' !in s
    ensures !Contains(s, "compiler")
  {
    ContainsNeeds(s, "compiler");
  }

  /** A tool entry by sub-agent `sub-1` is found by its summary, its type and its agent id, and not by an absent word. */
  lemma SearchScenario()
    ensures
      var e := Entry("1", "2026-01-01T00:00:00Z", "tool", None, "success", "Ran linter", Some("sub-1"));
      && MatchesSearch(e, "linter")
      && MatchesSearch(e, "tool")
      && MatchesSearch(e, "sub-1")
      && !MatchesSearch(e, "compiler")
  {
    SummaryHasLinter();
    ContainsSelf("tool");
    assert LowerStr("sub-1") == "sub-1";
    ContainsSelf("sub-1");
    assert LowerStr("Ran linter") == "ran linter";
    NoCompiler("ran linter");
    NoCompiler("tool");
    NoCompiler("sub-1");
  }
}

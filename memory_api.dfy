/**
 * The memory listing behind `GET /api/memory`: the memory document is read
 * whole, its entries are narrowed by an optional search, and its aggregate
 * fields are returned as stored.
 */
module MemoryApi {
  import opened Wrappers
  import opened Seqs
  import opened Text

  /** The fields of a memory entry that the search reads; the others travel with it untouched. */
  datatype MemoryEntry = MemoryEntry(title: string, content: string, tags: seq<string>)

  /** The stored memory document. */
  datatype MemoryFile = MemoryFile(entries: seq<MemoryEntry>, totalSizeBytes: int, lastConsolidated: Option<string>)

  /** The JSON body, or the 500 response `Failed to read memory`. */
  datatype Response = Listing(file: MemoryFile) | ReadFailure

  /** What a missing memory document is reported as. */
  const EMPTY_MEMORY := MemoryFile([], 0, None)

  /** Lowercased title, lowercased content, or any tag as stored, contains the (lowercased) term. */
  predicate EntryMatches(e: MemoryEntry, term: string) {
    || Contains(LowerStr(e.title), term)
    || Contains(LowerStr(e.content), term)
    || (exists k :: 0 <= k < |e.tags| && Contains(e.tags[k], term))
  }

  function SearchTerm(search: Option<string>): string {
    if search.Some? then LowerStr(search.value) else []
  }

  function Search(raw: Option<string>, search: Option<string>, parse: string -> Option<MemoryFile>): (r: Response)
    ensures raw.None? ==> r == Listing(EMPTY_MEMORY)
    ensures raw.Some? ==> (r.ReadFailure? <==> parse(raw.value).None?)
    ensures raw.Some? && r.Listing? ==>
      var stored := parse(raw.value).value;
      && r.file.totalSizeBytes == stored.totalSizeBytes
      && r.file.lastConsolidated == stored.lastConsolidated
      && IsSubseq(r.file.entries, stored.entries)
  {
    match raw
    case None => Listing(EMPTY_MEMORY)
    case Some(text) =>
      match parse(text)
      case None => ReadFailure
      case Some(stored) =>
        var term := SearchTerm(search);
        if term != [] then
          FilterIsSubseq(stored.entries, (e: MemoryEntry) => EntryMatches(e, term));
          Listing(stored.(entries := Filter(stored.entries, (e: MemoryEntry) => EntryMatches(e, term))))
        else
          SubseqRefl(stored.entries);
          Listing(stored)
  }

  lemma {:induction false} SubseqRefl<T>(s: seq<T>)
    ensures IsSubseq(s, s)
    decreases |s|
  {
    if s != [] {
      SubseqRefl(s[1..]);
    }
  }

  /**
   * With a non-empty search, the listed entries are exactly the stored entries
   * that match the lowercased search, each as many times as it is stored;
   * without one, all stored entries are listed.
   */
  lemma SearchSelects(raw: string, search: Option<string>, parse: string -> Option<MemoryFile>)
    requires parse(raw).Some?
    ensures
      var stored := parse(raw).value;
      var listed := Search(Some(raw), search, parse).file.entries;
      && (SearchTerm(search) == [] ==> listed == stored.entries)
      && (SearchTerm(search) != [] ==>
            && (forall e :: e in listed <==> e in stored.entries && EntryMatches(e, SearchTerm(search)))
            && (forall e :: multiset(listed)[e] ==
                  if EntryMatches(e, SearchTerm(search)) then multiset(stored.entries)[e] else 0))
  {
    var stored := parse(raw).value;
    var term := SearchTerm(search);
    if term != [] {
      var keep := (e: MemoryEntry) => EntryMatches(e, term);
      FilterMembers(stored.entries, keep);
      FilterMultiset(stored.entries, keep);
      var listed := Filter(stored.entries, keep);
      forall e
        ensures e in listed <==> e in stored.entries && EntryMatches(e, term)
      {
        if e in listed {
          var i :| 0 <= i < |listed| && listed[i] == e;
        }
        if e in stored.entries && EntryMatches(e, term) {
          var i :| 0 <= i < |stored.entries| && stored.entries[i] == e;
        }
      }
    }
  }

  /**
   * Titles and contents are searched case-insensitively, tags are not: the
   * lowercased search `urgent` misses a tag stored as `Urgent`, and finds `urgent`.
   */
  lemma TagsAreCaseSensitive()
    ensures EntryMatches(MemoryEntry("Plan", "", []), SearchTerm(Some("PLAN")))
    ensures !EntryMatches(MemoryEntry("Plan", "", ["Urgent"]), SearchTerm(Some("Urgent")))
    ensures EntryMatches(MemoryEntry("Plan", "", ["urgent"]), SearchTerm(Some("Urgent")))
  {
    assert LowerStr("PLAN") == "plan";
    assert LowerStr("Plan") == "plan";
    ContainsSelf("plan");
    assert LowerStr("Urgent") == "urgent";
    ContainsSelf("urgent");
    assert ["urgent"][0] == "urgent";
    assert LowerStr("") == "";
    ContainsIff("plan", "urgent");
    ContainsIff("", "urgent");
    ContainsIff("Urgent", "urgent");
    assert "Urgent"[0] != "urgent"[0];
    assert !OccursAt("Urgent", "urgent", 0);
  }
}

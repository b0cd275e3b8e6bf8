/**
 * The overview page: the uptime label, the recent-activity window read from
 * the log in file order, the per-type tally and the count-sorted
 * distribution shown as "Activity Mix", and the live feed.
 */
module Overview {
  import opened Wrappers
  import opened Seqs
  import opened Text
  import opened ActivityLog

  const SECONDS_PER_DAY := 86400
  const SECONDS_PER_HOUR := 3600
  const SECONDS_PER_MINUTE := 60

  /** JavaScript's `%` on integers: the remainder takes the sign of the dividend. */
  function JsRem(a: int, b: int): int
    requires b > 0
  {
    if a >= 0 then a % b else -((-a) % b)
  }

  /**
   * Days, hours and minutes as `formatUptime` computes them with `Math.floor`;
   * for a positive divisor Dafny's `/` is the floor.
   */
  function UptimeParts(seconds: int): (int, int, int) {
    (seconds / SECONDS_PER_DAY,
     JsRem(seconds, SECONDS_PER_DAY) / SECONDS_PER_HOUR,
     JsRem(seconds, SECONDS_PER_HOUR) / SECONDS_PER_MINUTE)
  }

  /** One part of the uptime label: the amount in decimal followed by its unit letter. */
  function Amount(n: int, unit: char): string {
    IntToString(n) + [unit]
  }

  /** `formatUptime`: `${d}d ${h}h ${m}m`, `${h}h ${m}m` or `${m}m`, leading zero parts dropped. */
  function FormatUptime(seconds: int): string {
    var (d, h, m) := UptimeParts(seconds);
    if d > 0 then Amount(d, 'd') + " " + Amount(h, 'h') + " " + Amount(m, 'm')
    else if h > 0 then Amount(h, 'h') + " " + Amount(m, 'm')
    else Amount(m, 'm')
  }

  /** For a non-negative count of seconds: hours below 24, minutes below 60, and the parts add up to the seconds, less under a minute. */
  lemma UptimeBounds(seconds: int)
    requires seconds >= 0
    ensures
      var (d, h, m) := UptimeParts(seconds);
      && d >= 0 && 0 <= h < 24 && 0 <= m < 60
      && d * 86400 + h * 3600 + m * 60 <= seconds < d * 86400 + h * 3600 + m * 60 + 60
  {
    var d := seconds / 86400;
    var r := seconds % 86400;
    var h := r / 3600;
    var r2 := r % 3600;
    var m := r2 / 60;
    assert seconds == 86400 * d + r;
    assert r == 3600 * h + r2;
    assert seconds == 3600 * (24 * d + h) + r2;
    assert seconds % 3600 == r2;
    assert r2 == 60 * m + r2 % 60;
  }

  /** Reads one `<integer><unit>` token of the uptime label. */
  function ReadAmount(token: string, unit: char): Option<int> {
    if |token| >= 1 && token[|token| - 1] == unit then ReadInt(token[..|token| - 1]) else None
  }

  /** Reads an uptime label back into days, hours and minutes; a missing part reads as 0. */
  function ReadUptime(text: string): Option<(int, int, int)> {
    var tokens := Split(text, ' ');
    if |tokens| == 3 then
      match (ReadAmount(tokens[0], 'd'), ReadAmount(tokens[1], 'h'), ReadAmount(tokens[2], 'm'))
      case (Some(d), Some(h), Some(m)) => Some((d, h, m))
      case _ => None
    else if |tokens| == 2 then
      match (ReadAmount(tokens[0], 'h'), ReadAmount(tokens[1], 'm'))
      case (Some(h), Some(m)) => Some((0, h, m))
      case _ => None
    else if |tokens| == 1 then
      match ReadAmount(tokens[0], 'm')
      case Some(m) => Some((0, 0, m))
      case None => None
    else None
  }

  /** A label part reads back as its amount, and holds no space. */
  lemma ReadAmountOf(n: int, unit: char)
    requires unit != ' '
    ensures ReadAmount(Amount(n, unit), unit) == Some(n)
    ensures ' ' !in Amount(n, unit)
  {
    var token := Amount(n, unit);
    assert token[..|token| - 1] == IntToString(n);
    IntToStringRoundTrip(n);
  }

  /** Space-free parts joined by single spaces split back into those parts. */
  lemma SplitTwo(a: string, b: string)
    requires ' ' !in a && ' ' !in b
    ensures Split(a + " " + b, ' ') == [a, b]
  {
    assert a + " " + b == a + [' '] + b;
    SplitAppend(a, b, ' ');
    SplitNoSep(a, ' ');
    SplitNoSep(b, ' ');
  }

  lemma SplitThree(a: string, b: string, c: string)
    requires ' ' !in a && ' ' !in b && ' ' !in c
    ensures Split(a + " " + b + " " + c, ' ') == [a, b, c]
  {
    assert a + " " + b + " " + c == a + [' '] + (b + " " + c);
    SplitAppend(a, b + " " + c, ' ');
    SplitNoSep(a, ' ');
    SplitTwo(b, c);
  }

  /** The three-part label splits into its three parts and reads back as its amounts. */
  lemma ThreePartLabel(d: int, h: int, m: int)
    ensures
      var text := Amount(d, 'd') + " " + Amount(h, 'h') + " " + Amount(m, 'm');
      && Split(text, ' ') == [Amount(d, 'd'), Amount(h, 'h'), Amount(m, 'm')]
      && ReadUptime(text) == Some((d, h, m))
  {
    ReadAmountOf(d, 'd');
    ReadAmountOf(h, 'h');
    ReadAmountOf(m, 'm');
    SplitThree(Amount(d, 'd'), Amount(h, 'h'), Amount(m, 'm'));
  }

  /** The two-part label splits into its two parts and reads back with no days. */
  lemma TwoPartLabel(h: int, m: int)
    ensures
      var text := Amount(h, 'h') + " " + Amount(m, 'm');
      && Split(text, ' ') == [Amount(h, 'h'), Amount(m, 'm')]
      && ReadUptime(text) == Some((0, h, m))
  {
    ReadAmountOf(h, 'h');
    ReadAmountOf(m, 'm');
    SplitTwo(Amount(h, 'h'), Amount(m, 'm'));
  }

  /** The minutes-only label is one part and reads back with no days or hours. */
  lemma OnePartLabel(m: int)
    ensures Split(Amount(m, 'm'), ' ') == [Amount(m, 'm')]
    ensures ReadUptime(Amount(m, 'm')) == Some((0, 0, m))
  {
    ReadAmountOf(m, 'm');
    SplitNoSep(Amount(m, 'm'), ' ');
  }

  /**
   * The uptime label has a days part exactly when there is at least one day,
   * an hours part exactly when there are days or hours, always a minutes part,
   * and reading it back gives the parts `formatUptime` computed.
   */
  lemma UptimeLabel(seconds: int)
    requires seconds >= 0
    ensures
      var (d, h, m) := UptimeParts(seconds);
      var tokens := Split(FormatUptime(seconds), ' ');
      && tokens == (if d > 0 then [Amount(d, 'd'), Amount(h, 'h'), Amount(m, 'm')]
                    else if h > 0 then [Amount(h, 'h'), Amount(m, 'm')]
                    else [Amount(m, 'm')])
      && (|tokens| == 3 <==> d > 0)
      && (|tokens| >= 2 <==> d > 0 || h > 0)
      && |tokens| >= 1
      && ReadUptime(FormatUptime(seconds)) == Some((d, h, m))
  {
    var (d, h, m) := UptimeParts(seconds);
    assert d >= 0 && h >= 0;
    if d > 0 {
      ThreePartLabel(d, h, m);
    } else if h > 0 {
      TwoPartLabel(h, m);
    } else {
      OnePartLabel(m);
    }
  }

  // ---------------------------------------------------------------------
  // The recent-activity window

  const RECENT_LIMIT := 14
  const FEED_LIMIT := 12
  const MIX_LIMIT := 5

  /**
   * `recentActivity`: the first 14 parsed non-empty lines, in file order.
   * An absent log gives no entries; a line that does not parse makes the
   * page fail (the page does not catch it), modelled as `None`.
   */
  function RecentActivity(raw: Option<string>, parse: string -> Option<Entry>): (r: Option<seq<Entry>>)
    ensures raw.None? ==> r == Some([])
    ensures raw.Some? ==>
      (r.None? <==> exists k :: 0 <= k < |NonEmptyLines(raw.value)| && parse(NonEmptyLines(raw.value)[k]).None?)
    ensures r.Some? ==> |r.value| <= RECENT_LIMIT
  {
    match raw
    case None => Some([])
    case Some(text) =>
      match ParseAll(NonEmptyLines(text), parse)
      case None => None
      case Some(parsed) => Some(Take(parsed, RECENT_LIMIT))
  }

  /**
   * The window holds the first lines of the log in file order, not reversed:
   * entry `k` is line `k`, and it is the activity route's newest-first list
   * turned back round and cut to 14.
   */
  lemma RecentInFileOrder(raw: string, parse: string -> Option<Entry>)
    requires Entries(raw, parse).Some?
    ensures RecentActivity(Some(raw), parse).Some?
    ensures
      var lines, recent := NonEmptyLines(raw), RecentActivity(Some(raw), parse).value;
      && |recent| == (if |lines| < RECENT_LIMIT then |lines| else RECENT_LIMIT)
      && (forall k :: 0 <= k < |recent| ==> Some(recent[k]) == parse(lines[k]))
      && recent == Take(Reverse(Entries(raw, parse).value), RECENT_LIMIT)
  {
    var parsed := ParseAll(NonEmptyLines(raw), parse).value;
    ReverseReverse(parsed);
  }

  // ---------------------------------------------------------------------
  // The per-type tally

  /** How many entries have the given type. */
  function Occ(es: seq<Entry>, t: string): (n: nat)
    ensures n <= |es|
  {
    if es == [] then 0
    else Occ(es[..|es| - 1], t) + (if es[|es| - 1].kind == t then 1 else 0)
  }

  /**
   * The distinct types in order of first appearance: the key order of the
   * object the reduce builds. Every type that occurs is listed exactly once,
   * and no other.
   */
  function Kinds(es: seq<Entry>): (ks: seq<string>)
    ensures forall t :: multiset(ks)[t] == if Occ(es, t) > 0 then 1 else 0
  {
    if es == [] then []
    else
      var ks := Kinds(es[..|es| - 1]);
      var t := es[|es| - 1].kind;
      if t in ks then ks else ks + [t]
  }

  /** The object `typeCounts`, as a map from type to count. */
  function Tally(es: seq<Entry>): map<string, nat> {
    map t | t in Kinds(es) :: Occ(es, t)
  }

  /** Counting one more entry adds one to its type and leaves the others alone. */
  lemma OccStep(es: seq<Entry>, e: Entry, t: string)
    ensures Occ(es + [e], t) == Occ(es, t) + (if e.kind == t then 1 else 0)
  {
    assert (es + [e])[..|es|] == es;
  }

  lemma KindsStep(es: seq<Entry>, e: Entry)
    ensures Kinds(es + [e]) == if e.kind in Kinds(es) then Kinds(es) else Kinds(es) + [e.kind]
  {
    assert (es + [e])[..|es|] == es;
  }

  /** A type is a key of the tally exactly when it occurs, and its count is its number of occurrences. */
  lemma TallySpec(es: seq<Entry>)
    ensures forall t :: t in Tally(es) <==> Occ(es, t) > 0
    ensures forall t :: t in Tally(es) ==> Tally(es)[t] == Occ(es, t) >= 1
  {
    forall t
      ensures t in Kinds(es) <==> Occ(es, t) > 0
    {
      assert t in Kinds(es) <==> multiset(Kinds(es))[t] > 0;
    }
  }

  /**
   * The `typeCounts` reduce: for each entry, `acc[type] = (acc[type] ?? 0) + 1`.
   * `keys` records the object's key order (insertion order).
   */
  method CountTypes(recent: seq<Entry>) returns (keys: seq<string>, counts: map<string, nat>)
    ensures keys == Kinds(recent)
    ensures counts == Tally(recent)
  {
    keys := [];
    counts := map[];
    for i := 0 to |recent|
      invariant keys == Kinds(recent[..i])
      invariant counts == Tally(recent[..i])
    {
      var e := recent[i];
      var previous := if e.kind in counts then counts[e.kind] else 0;
      if e.kind !in counts {
        keys := keys + [e.kind];
      }
      counts := counts[e.kind := previous + 1];
      assert recent[..i + 1] == recent[..i] + [e];
      TallyAdd(recent[..i], e);
      KindsStep(recent[..i], e);
    }
    assert recent[..|recent|] == recent;
  }

  /** The tally after one more entry is the tally before it with that entry's type counted once more. */
  lemma TallyAdd(es: seq<Entry>, e: Entry)
    ensures Tally(es + [e]) == Tally(es)[e.kind := (if e.kind in Tally(es) then Tally(es)[e.kind] else 0) + 1]
  {
    var before, after := Tally(es), Tally(es + [e]);
    var expected := before[e.kind := (if e.kind in before then before[e.kind] else 0) + 1];
    TallySpec(es);
    TallySpec(es + [e]);
    forall t
      ensures (t in after <==> t in expected) && (t in after ==> after[t] == expected[t])
    {
      OccStep(es, e, t);
    }
    assert after.Keys == expected.Keys;
  }

  // ---------------------------------------------------------------------
  // Sums of counts

  /** The sum of the occurrence counts of the given types. */
  function SumOcc(ks: seq<string>, es: seq<Entry>): nat {
    if ks == [] then 0 else Occ(es, ks[0]) + SumOcc(ks[1..], es)
  }

  lemma {:induction false} SumOccStep(ks: seq<string>, es: seq<Entry>, e: Entry)
    requires forall t :: multiset(ks)[t] <= 1
    ensures SumOcc(ks, es + [e]) == SumOcc(ks, es) + (if e.kind in ks then 1 else 0)
  {
    if ks != [] {
      assert ks == [ks[0]] + ks[1..];
      assert forall t :: multiset(ks)[t] == multiset([ks[0]])[t] + multiset(ks[1..])[t];
      assert e.kind in ks <==> e.kind == ks[0] || e.kind in ks[1..];
      assert ks[0] !in ks[1..] by {
        assert multiset(ks)[ks[0]] <= 1;
      }
      OccStep(es, e, ks[0]);
      SumOccStep(ks[1..], es, e);
    }
  }

  lemma {:induction false} SumOccAppend(ks: seq<string>, t: string, es: seq<Entry>)
    ensures SumOcc(ks + [t], es) == SumOcc(ks, es) + Occ(es, t)
  {
    if ks == [] {
      assert SumOcc([t], es) == Occ(es, t) + SumOcc([], es);
    } else {
      assert (ks + [t])[1..] == ks[1..] + [t];
      SumOccAppend(ks[1..], t, es);
    }
  }

  /** Every entry is counted once: the counts of the distinct types add up to the number of entries. */
  lemma {:induction false} SumOccKinds(es: seq<Entry>)
    ensures SumOcc(Kinds(es), es) == |es|
    decreases |es|
  {
    if es != [] {
      var p, e := es[..|es| - 1], es[|es| - 1];
      assert es == p + [e];
      SumOccKinds(p);
      KindsStep(p, e);
      SumOccStep(Kinds(p), p, e);
      if e.kind !in Kinds(p) {
        SumOccAppend(Kinds(p), e.kind, es);
        OccStep(p, e, e.kind);
        assert multiset(Kinds(p))[e.kind] == 0;
      }
    }
  }

  // ---------------------------------------------------------------------
  // The distribution

  /** One row of `typeDistribution`; the rounded percentage is not modelled. */
  datatype Share = Share(kind: string, count: nat)

  /** `Object.entries(typeCounts).map(...)`, in key order. */
  function Shares(keys: seq<string>, counts: map<string, nat>): (r: seq<Share>)
    requires forall k :: k in keys ==> k in counts
    ensures |r| == |keys|
    ensures forall i :: 0 <= i < |r| ==> r[i] == Share(keys[i], counts[keys[i]])
  {
    if keys == [] then [] else [Share(keys[0], counts[keys[0]])] + Shares(keys[1..], counts)
  }

  function KindsOf(s: seq<Share>): seq<string> {
    if s == [] then [] else [s[0].kind] + KindsOf(s[1..])
  }

  function SumCounts(s: seq<Share>): nat {
    if s == [] then 0 else s[0].count + SumCounts(s[1..])
  }

  predicate NonIncreasing(s: seq<Share>) {
    forall i, j :: 0 <= i < j < |s| ==> s[i].count >= s[j].count
  }

  /**
   * Inserts a row in front of the first row whose count is not larger, so
   * that a row from earlier in the input stays ahead of later rows with the
   * same count.
   */
  function InsertByCount(x: Share, sorted: seq<Share>): seq<Share> {
    if sorted == [] || x.count >= sorted[0].count then [x] + sorted
    else [sorted[0]] + InsertByCount(x, sorted[1..])
  }

  /** `.sort((a, b) => b.count - a.count)`: a stable sort by count, largest first. */
  function SortByCount(s: seq<Share>): (r: seq<Share>)
    ensures multiset(r) == multiset(s)
    ensures NonIncreasing(r)
  {
    if s == [] then []
    else
      var rest := SortByCount(s[1..]);
      InsertSorted(s[0], rest);
      assert s == [s[0]] + s[1..];
      InsertByCount(s[0], rest)
  }

  lemma InsertSorted(x: Share, sorted: seq<Share>)
    requires NonIncreasing(sorted)
    ensures multiset(InsertByCount(x, sorted)) == multiset([x]) + multiset(sorted)
    ensures NonIncreasing(InsertByCount(x, sorted))
    ensures InsertByCount(x, sorted) != [] && (InsertByCount(x, sorted)[0] == x || InsertByCount(x, sorted)[0] == sorted[0])
  {
    InsertPerm(x, sorted);
    InsertOrdered(x, sorted);
  }

  /** Insertion adds exactly the one row. */
  lemma {:induction false} InsertPerm(x: Share, sorted: seq<Share>)
    ensures multiset(InsertByCount(x, sorted)) == multiset([x]) + multiset(sorted)
  {
    if sorted != [] && x.count < sorted[0].count {
      InsertPerm(x, sorted[1..]);
      assert sorted == [sorted[0]] + sorted[1..];
    }
  }

  /** Every row of the result is the inserted one or a row that was there. */
  lemma {:induction false} InsertMembers(x: Share, sorted: seq<Share>)
    ensures forall y :: y in InsertByCount(x, sorted) ==> y == x || y in sorted
  {
    if sorted != [] && x.count < sorted[0].count {
      InsertMembers(x, sorted[1..]);
    }
  }

  /** Inserting into a sorted list keeps it sorted. */
  lemma {:induction false} InsertOrdered(x: Share, sorted: seq<Share>)
    requires NonIncreasing(sorted)
    ensures NonIncreasing(InsertByCount(x, sorted))
  {
    if sorted != [] && x.count < sorted[0].count {
      var tail := InsertByCount(x, sorted[1..]);
      InsertOrdered(x, sorted[1..]);
      InsertMembers(x, sorted[1..]);
      var r := [sorted[0]] + tail;
      forall j | 0 < j < |r|
        ensures sorted[0].count >= r[j].count
      {
        assert r[j] == tail[j - 1];
        assert r[j] in tail;
      }
      forall i, j | 0 <= i < j < |r|
        ensures r[i].count >= r[j].count
      {
        if i > 0 {
          assert r[i] == tail[i - 1] && r[j] == tail[j - 1];
        }
      }
    }
  }

  /** The insertion keeps the relative order of rows with equal counts. */
  lemma {:induction false} InsertKeepsTies(x: Share, sorted: seq<Share>, c: nat)
    ensures Filter(InsertByCount(x, sorted), (y: Share) => y.count == c)
         == (if x.count == c then [x] else []) + Filter(sorted, (y: Share) => y.count == c)
  {
    if sorted == [] || x.count >= sorted[0].count {
      assert Filter([x] + sorted, (y: Share) => y.count == c)
          == (if x.count == c then [x] else []) + Filter(sorted, (y: Share) => y.count == c)
      by {
        assert ([x] + sorted)[1..] == sorted;
      }
    } else {
      InsertKeepsTies(x, sorted[1..], c);
      assert ([sorted[0]] + InsertByCount(x, sorted[1..]))[1..] == InsertByCount(x, sorted[1..]);
    }
  }

  /** The sort is stable: the rows with any one count come out in their input order. */
  lemma {:induction false} SortKeepsTies(s: seq<Share>, c: nat)
    ensures Filter(SortByCount(s), (y: Share) => y.count == c) == Filter(s, (y: Share) => y.count == c)
  {
    if s != [] {
      SortKeepsTies(s[1..], c);
      InsertKeepsTies(s[0], SortByCount(s[1..]), c);
    }
  }

  lemma {:induction false} InsertSums(x: Share, sorted: seq<Share>)
    ensures SumCounts(InsertByCount(x, sorted)) == x.count + SumCounts(sorted)
    ensures multiset(KindsOf(InsertByCount(x, sorted))) == multiset([x.kind]) + multiset(KindsOf(sorted))
  {
    if !(sorted == [] || x.count >= sorted[0].count) {
      InsertSums(x, sorted[1..]);
      assert ([sorted[0]] + InsertByCount(x, sorted[1..]))[1..] == InsertByCount(x, sorted[1..]);
    } else {
      assert ([x] + sorted)[1..] == sorted;
    }
  }

  lemma {:induction false} SortSums(s: seq<Share>)
    ensures SumCounts(SortByCount(s)) == SumCounts(s)
    ensures multiset(KindsOf(SortByCount(s))) == multiset(KindsOf(s))
  {
    if s != [] {
      SortSums(s[1..]);
      InsertSums(s[0], SortByCount(s[1..]));
    }
  }

  lemma {:induction false} SharesSums(keys: seq<string>, es: seq<Entry>)
    requires forall k :: k in keys ==> k in Tally(es)
    ensures SumCounts(Shares(keys, Tally(es))) == SumOcc(keys, es)
    ensures KindsOf(Shares(keys, Tally(es))) == keys
  {
    if keys != [] {
      SharesSums(keys[1..], es);
      assert Shares(keys, Tally(es))[1..] == Shares(keys[1..], Tally(es));
    }
  }

  /** `typeDistribution`: one row per type with its count, largest count first. */
  function TypeDistribution(recent: seq<Entry>): seq<Share> {
    SortByCount(Shares(Kinds(recent), Tally(recent)))
  }

  /** The rows of a distribution with the given count, in order. */
  function WithCount(s: seq<Share>, c: nat): seq<Share> {
    Filter(s, (y: Share) => y.count == c)
  }

  /** The distribution has one row per distinct type: no type twice, none missing. */
  lemma DistributionKinds(recent: seq<Entry>)
    ensures forall t :: multiset(KindsOf(TypeDistribution(recent)))[t] == if Occ(recent, t) > 0 then 1 else 0
  {
    SharesSums(Kinds(recent), recent);
    SortSums(Shares(Kinds(recent), Tally(recent)));
  }

  /** Each row carries its type's count, at least 1, and the rows are sorted by count, largest first. */
  lemma DistributionCounts(recent: seq<Entry>)
    ensures
      var d := TypeDistribution(recent);
      && (forall i :: 0 <= i < |d| ==> d[i].count == Occ(recent, d[i].kind) >= 1)
      && NonIncreasing(d)
  {
    TallySpec(recent);
    var shares := Shares(Kinds(recent), Tally(recent));
    var d := TypeDistribution(recent);
    forall i | 0 <= i < |d|
      ensures d[i].count == Occ(recent, d[i].kind) >= 1
    {
      assert d[i] in multiset(shares);
      var j :| 0 <= j < |shares| && shares[j] == d[i];
      assert Kinds(recent)[j] in Tally(recent);
    }
  }

  /** Rows with equal counts keep the key order of `typeCounts`, that is, the order in which the types first appear. */
  lemma DistributionTies(recent: seq<Entry>, c: nat)
    ensures WithCount(TypeDistribution(recent), c) == WithCount(Shares(Kinds(recent), Tally(recent)), c)
  {
    TallySpec(recent);
    SortKeepsTies(Shares(Kinds(recent), Tally(recent)), c);
  }

  /** The counts in the distribution add up to the number of recent entries. */
  lemma DistributionSum(recent: seq<Entry>)
    ensures SumCounts(TypeDistribution(recent)) == |recent|
  {
    TallySpec(recent);
    var shares := Shares(Kinds(recent), Tally(recent));
    SharesSums(Kinds(recent), recent);
    SortSums(shares);
    SumOccKinds(recent);
  }

  /** `totalEntries`: the number of recent entries, or 1 when there are none, so never 0. */
  function TotalEntries(recent: seq<Entry>): (n: nat)
    ensures n >= 1
    ensures recent != [] ==> n == |recent|
    ensures recent == [] ==> n == 1
  {
    if |recent| == 0 then 1 else |recent|
  }

  /** The "Activity Mix" rows: `typeDistribution.slice(0, 5)`. */
  function MixRows(d: seq<Share>): seq<Share> {
    Take(d, MIX_LIMIT)
  }

  /** The mix shows at most five rows, and no row left out has a larger count than one shown. */
  lemma MixShowsLargest(recent: seq<Entry>)
    ensures
      var d := TypeDistribution(recent);
      var rows := MixRows(d);
      && |rows| <= MIX_LIMIT
      && rows <= d
      && forall i, j :: 0 <= i < |rows| <= j < |d| ==> rows[i].count >= d[j].count
  {
  }

  /** The live feed: `recentActivity.slice(0, 12)`. */
  function Feed(recent: seq<Entry>): (r: seq<Entry>)
    ensures |r| <= FEED_LIMIT
    ensures r <= recent
    ensures |recent| <= FEED_LIMIT ==> r == recent
  {
    Take(recent, FEED_LIMIT)
  }
}

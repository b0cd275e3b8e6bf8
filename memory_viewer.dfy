/**
 * The text logic of the memory viewer page: the size label, the search
 * highlighter that splits a string into plain and marked parts, and the
 * line classifier of the markdown renderer.
 */
module MemoryViewer {
  import opened Wrappers
  import opened Text

  // ---------------------------------------------------------------------
  // formatBytes

  const BYTES_PER_KB := 1024

  /**
   * `(bytes / 1024).toFixed(1)` as a whole number of tenths: for a whole
   * number of bytes the quotient is exact, and `toFixed` picks the nearest
   * tenth, the larger one on a tie.
   */
  function Tenths(bytes: int): int {
    (10 * bytes + BYTES_PER_KB / 2) / BYTES_PER_KB
  }

  /** `formatBytes`: `<bytes> B` below 1024, otherwise kilobytes with one decimal and ` KB`. */
  function FormatBytes(bytes: int): string {
    if bytes < BYTES_PER_KB then IntToString(bytes) + " B"
    else
      var n := Tenths(bytes);
      IntToString(n / 10) + "." + [Digit(n % 10)] + " KB"
  }

  /** Below 1024 the label is the decimal rendering of the byte count followed by ` B`. */
  lemma FormatBytesSmall(bytes: int)
    requires bytes < BYTES_PER_KB
    ensures
      var text := FormatBytes(bytes);
      && |text| >= 3
      && text[|text| - 2..] == " B"
      && ReadInt(text[..|text| - 2]) == Some(bytes)
  {
    var text := FormatBytes(bytes);
    assert text[..|text| - 2] == IntToString(bytes);
    IntToStringRoundTrip(bytes);
  }

  /** Reads a `<integer>.<digit> KB` label back as a number of tenths. */
  function ReadKilobytes(text: string): Option<int> {
    if |text| >= 6 && text[|text| - 3..] == " KB" && text[|text| - 5] == '.' && IsDigit(text[|text| - 4]) then
      match ReadInt(text[..|text| - 5])
      case Some(whole) => Some(10 * whole + (text[|text| - 4] as int - '0' as int))
      case None => None
    else None
  }

  /**
   * From 1024 bytes up the label shows the kilobytes rounded to the nearest
   * tenth, half up, and reads back as that many tenths.
   */
  lemma FormatBytesLarge(bytes: int)
    requires bytes >= BYTES_PER_KB
    ensures
      var n := Tenths(bytes);
      && 1024 * n - 512 <= 10 * bytes < 1024 * n + 512
      && ReadKilobytes(FormatBytes(bytes)) == Some(n)
  {
    var n := Tenths(bytes);
    var whole := IntToString(n / 10);
    var text := FormatBytes(bytes);
    assert text == whole + "." + [Digit(n % 10)] + " KB";
    assert text[..|text| - 5] == whole;
    assert text[|text| - 4] == Digit(n % 10);
    IntToStringRoundTrip(n / 10);
  }

  // ---------------------------------------------------------------------
  // The search pattern

  /** The characters `term.replace(/[.*+?^${}()|[\]\\]/g, '\\$&')` escapes. */
  predicate IsMeta(c: char) {
    c in ".*+?^${}()|[]\\"
  }

  /** Puts a backslash in front of every regular-expression metacharacter of the term. */
  function EscapeRegExp(term: string): (pattern: string)
    ensures |pattern| >= |term|
  {
    if term == [] then []
    else (if IsMeta(term[0]) then ['\\', term[0]] else [term[0]]) + EscapeRegExp(term[1..])
  }

  /**
   * The string a pattern matches when it holds only ordinary characters and
   * escaped metacharacters; `None` for a pattern with an unescaped
   * metacharacter or any other escape, which would not stand for itself.
   */
  function ReadLiteral(pattern: string): Option<string>
    decreases |pattern|
  {
    if pattern == [] then Some([])
    else if pattern[0] == '\\' then
      if |pattern| >= 2 && IsMeta(pattern[1]) then
        match ReadLiteral(pattern[2..])
        case Some(rest) => Some([pattern[1]] + rest)
        case None => None
      else None
    else if IsMeta(pattern[0]) then None
    else
      match ReadLiteral(pattern[1..])
      case Some(rest) => Some([pattern[0]] + rest)
      case None => None
  }

  /** The escaped term is a pattern that matches exactly the term's own characters. */
  lemma {:induction false} EscapeIsLiteral(term: string)
    ensures ReadLiteral(EscapeRegExp(term)) == Some(term)
  {
    if term != [] {
      EscapeIsLiteral(term[1..]);
      var rest := EscapeRegExp(term[1..]);
      var pattern := EscapeRegExp(term);
      if IsMeta(term[0]) {
        assert pattern == ['\\', term[0]] + rest;
        assert pattern[2..] == rest;
        assert ReadLiteral(pattern) == Some([term[0]] + term[1..]);
      } else {
        assert pattern == [term[0]] + rest;
        assert pattern[1..] == rest;
      }
      assert term == [term[0]] + term[1..];
    }
  }

  // ---------------------------------------------------------------------
  // Case-insensitive literal split

  /** The term occurs at position `i` of `s`, ignoring ASCII case. */
  predicate MatchAt(s: string, term: string, i: int) {
    0 <= i && i + |term| <= |s| && LowerStr(s[i..i + |term|]) == LowerStr(term)
  }

  /** The term occurs nowhere in `s`, ignoring ASCII case. */
  predicate NoMatch(s: string, term: string) {
    forall i :: 0 <= i <= |s| - |term| ==> !MatchAt(s, term, i)
  }

  /**
   * `text.split(/(term)/gi)` for a literal term: the text before the leftmost
   * match, the match itself, then the same for the rest of the text, ending
   * with the text after the last match.
   */
  function SplitAround(text: string, term: string): (parts: seq<string>)
    requires term != []
    ensures |parts| % 2 == 1
    decreases |text|
  {
    if |text| < |term| then [text]
    else if MatchAt(text, term, 0) then [[], text[..|term|]] + SplitAround(text[|term|..], term)
    else
      var rest := SplitAround(text[1..], term);
      [[text[0]] + rest[0]] + rest[1..]
  }

  function Concat(parts: seq<string>): string {
    if parts == [] then [] else parts[0] + Concat(parts[1..])
  }

  lemma {:induction false} ConcatCons(head: string, rest: seq<string>)
    requires rest != []
    ensures Concat([head + rest[0]] + rest[1..]) == head + Concat(rest)
  {
    assert ([head + rest[0]] + rest[1..])[1..] == rest[1..];
    assert Concat(rest) == rest[0] + Concat(rest[1..]);
  }

  /** Nothing is lost or added: the parts put back together are the text. */
  lemma {:induction false} SplitAroundConcat(text: string, term: string)
    requires term != []
    ensures Concat(SplitAround(text, term)) == text
    decreases |text|
  {
    if |text| < |term| {
    } else if MatchAt(text, term, 0) {
      var rest := SplitAround(text[|term|..], term);
      SplitAroundConcat(text[|term|..], term);
      assert ([[], text[..|term|]] + rest)[1..] == [text[..|term|]] + rest;
      assert ([text[..|term|]] + rest)[1..] == rest;
      assert text == text[..|term|] + text[|term|..];
    } else {
      var rest := SplitAround(text[1..], term);
      SplitAroundConcat(text[1..], term);
      ConcatCons([text[0]], rest);
      assert text == [text[0]] + text[1..];
    }
  }

  /** The first part is a prefix of the text in which the term does not occur. */
  lemma {:induction false} SplitAroundHead(text: string, term: string)
    requires term != []
    ensures SplitAround(text, term)[0] <= text
    ensures NoMatch(SplitAround(text, term)[0], term)
    decreases |text|
  {
    var parts := SplitAround(text, term);
    if |text| < |term| {
    } else if MatchAt(text, term, 0) {
    } else {
      var rest := SplitAround(text[1..], term);
      SplitAroundHead(text[1..], term);
      var head := [text[0]] + rest[0];
      assert head <= text by {
        assert text == [text[0]] + text[1..];
      }
      forall i | 0 <= i <= |head| - |term|
        ensures !MatchAt(head, term, i)
      {
        if i == 0 {
          assert head[..|term|] == text[..|term|];
        } else {
          assert head[i..i + |term|] == rest[0][i - 1..i - 1 + |term|];
          assert !MatchAt(rest[0], term, i - 1);
        }
      }
    }
  }

  /** What the piece at position `i` of the split is: an occurrence of the term at odd positions, text free of it at even ones. */
  predicate PieceAt(piece: string, i: int, term: string) {
    if i % 2 == 0 then NoMatch(piece, term) else LowerStr(piece) == LowerStr(term)
  }

  /**
   * The parts alternate: the even-numbered ones are stretches of text with no
   * occurrence of the term, the odd-numbered ones are occurrences of it.
   */
  lemma {:induction false} SplitAroundAlternates(text: string, term: string)
    requires term != []
    ensures forall i :: 0 <= i < |SplitAround(text, term)| ==> PieceAt(SplitAround(text, term)[i], i, term)
    decreases |text|
  {
    var parts := SplitAround(text, term);
    SplitAroundHead(text, term);
    if |text| < |term| {
    } else if MatchAt(text, term, 0) {
      var rest := SplitAround(text[|term|..], term);
      SplitAroundAlternates(text[|term|..], term);
      assert parts == [[], text[..|term|]] + rest;
      forall i | 0 <= i < |parts|
        ensures PieceAt(parts[i], i, term)
      {
        if i >= 2 {
          assert parts[i] == rest[i - 2];
          assert PieceAt(rest[i - 2], i - 2, term);
        }
      }
    } else {
      var rest := SplitAround(text[1..], term);
      SplitAroundAlternates(text[1..], term);
      forall i | 1 <= i < |parts|
        ensures PieceAt(parts[i], i, term)
      {
        assert parts[i] == rest[i];
        assert PieceAt(rest[i], i, term);
      }
    }
  }

  /** No occurrence of the term starts inside `plain`: the match `found` that follows it is the leftmost one. */
  predicate LeftmostMatch(plain: string, found: string, term: string) {
    forall p :: 0 <= p < |plain| ==> !MatchAt(plain + found, term, p)
  }

  /** A character that does not start an occurrence can be put in front of a plain piece. */
  lemma LeftmostCons(c: char, plain: string, found: string, text: string, term: string)
    requires |found| == |term| && [c] + plain + found <= text && !MatchAt(text, term, 0)
    requires LeftmostMatch(plain, found, term)
    ensures LeftmostMatch([c] + plain, found, term)
  {
    var joined := [c] + plain + found;
    forall p | 0 <= p < |[c] + plain|
      ensures !MatchAt(joined, term, p)
    {
      if p == 0 {
        assert joined[0..|term|] == text[0..|term|];
      } else if p + |term| <= |joined| {
        assert joined[p..p + |term|] == (plain + found)[p - 1..p - 1 + |term|];
        assert !MatchAt(plain + found, term, p - 1);
      }
    }
    assert [c] + plain + found == ([c] + plain) + found;
  }

  /** The first two pieces of a split, put together, begin the text, and the second has the term's length. */
  lemma SplitAroundFront(text: string, term: string)
    requires term != [] && |SplitAround(text, term)| >= 2
    ensures SplitAround(text, term)[0] + SplitAround(text, term)[1] <= text
    ensures |SplitAround(text, term)[1]| == |term|
  {
    var parts := SplitAround(text, term);
    SplitAroundAlternates(text, term);
    assert PieceAt(parts[1], 1, term);
    assert |parts[1]| == |LowerStr(parts[1])| == |LowerStr(term)| == |term|;
    SplitAroundConcat(text, term);
    assert Concat(parts[1..]) == parts[1] + Concat(parts[2..]);
    assert text == parts[0] + parts[1] + Concat(parts[2..]);
  }

  /** The step where the text does not start with the term: its first character joins the leading plain piece. */
  lemma LeftmostStep(text: string, term: string)
    requires term != [] && |text| >= |term| && !MatchAt(text, term, 0)
    requires |SplitAround(text[1..], term)| >= 2
    requires LeftmostMatch(SplitAround(text[1..], term)[0], SplitAround(text[1..], term)[1], term)
    ensures LeftmostMatch([text[0]] + SplitAround(text[1..], term)[0], SplitAround(text[1..], term)[1], term)
  {
    var rest := SplitAround(text[1..], term);
    SplitAroundFront(text[1..], term);
    assert [text[0]] + rest[0] + rest[1] <= text by {
      assert text == [text[0]] + text[1..];
    }
    LeftmostCons(text[0], rest[0], rest[1], text, term);
  }

  /**
   * The occurrences are taken leftmost first and without overlap, as a global
   * regular-expression split does: no occurrence starts inside a plain piece,
   * not even one running into the match that follows it.
   */
  lemma {:induction false} SplitAroundLeftmost(text: string, term: string)
    requires term != []
    ensures forall i :: 0 <= i < |SplitAround(text, term)| - 1 && i % 2 == 0 ==>
      LeftmostMatch(SplitAround(text, term)[i], SplitAround(text, term)[i + 1], term)
    decreases |text|
  {
    var parts := SplitAround(text, term);
    if |text| < |term| {
    } else if MatchAt(text, term, 0) {
      var rest := SplitAround(text[|term|..], term);
      SplitAroundLeftmost(text[|term|..], term);
      assert parts == [[], text[..|term|]] + rest;
      forall i | 0 <= i < |parts| - 1 && i % 2 == 0
        ensures LeftmostMatch(parts[i], parts[i + 1], term)
      {
        if i >= 2 {
          assert parts[i] == rest[i - 2] && parts[i + 1] == rest[i - 1];
        }
      }
    } else {
      var rest := SplitAround(text[1..], term);
      SplitAroundLeftmost(text[1..], term);
      forall i | 0 <= i < |parts| - 1 && i % 2 == 0
        ensures LeftmostMatch(parts[i], parts[i + 1], term)
      {
        if i >= 2 {
          assert parts[i] == rest[i] && parts[i + 1] == rest[i + 1];
        } else {
          LeftmostStep(text, term);
        }
      }
    }
  }

  // ---------------------------------------------------------------------
  // highlightSearch

  /** One rendered piece of a highlighted string: plain text or a `<mark>`. */
  datatype Part = Plain(text: string) | Marked(text: string)

  function PartsText(parts: seq<Part>): string {
    if parts == [] then [] else parts[0].text + PartsText(parts[1..])
  }

  /** A split piece is marked when it equals the term, ignoring case. */
  function Mark(piece: string, term: string): Part {
    if LowerStr(piece) == LowerStr(term) then Marked(piece) else Plain(piece)
  }

  function MarkAll(pieces: seq<string>, term: string): (r: seq<Part>)
    ensures |r| == |pieces|
    ensures forall i :: 0 <= i < |r| ==> r[i] == Mark(pieces[i], term)
  {
    if pieces == [] then [] else [Mark(pieces[0], term)] + MarkAll(pieces[1..], term)
  }

  /**
   * `highlightSearch`: the text itself when the term or the text is empty;
   * otherwise the text split around the escaped term as a case-insensitive
   * pattern, each piece marked when it equals the term ignoring case.
   */
  function HighlightSearch(text: string, term: string): (r: seq<Part>)
    ensures term == [] || text == [] ==> r == [Plain(text)]
  {
    if term == [] || text == [] then [Plain(text)]
    else
      EscapeIsLiteral(term);
      match ReadLiteral(EscapeRegExp(term))
      case Some(literal) => MarkAll(SplitAround(text, literal), term)
      case None => [Plain(text)]
  }

  lemma {:induction false} MarkAllText(pieces: seq<string>, term: string)
    ensures PartsText(MarkAll(pieces, term)) == Concat(pieces)
  {
    if pieces != [] {
      MarkAllText(pieces[1..], term);
    }
  }

  /** The highlighted parts spell out the text unchanged. */
  lemma HighlightKeepsText(text: string, term: string)
    ensures PartsText(HighlightSearch(text, term)) == text
  {
    if term != [] && text != [] {
      EscapeIsLiteral(term);
      MarkAllText(SplitAround(text, term), term);
      SplitAroundConcat(text, term);
    }
  }

  /** A piece is marked exactly when it sits at an odd position of the split. */
  lemma MarkedAtOdd(piece: string, i: int, term: string)
    requires term != [] && PieceAt(piece, i, term)
    ensures Mark(piece, term).Marked? <==> i % 2 == 1
  {
    if i % 2 == 0 && |piece| == |term| {
      assert !MatchAt(piece, term, 0);
      assert piece[0..|term|] == piece;
    }
  }

  /**
   * For a non-empty term and text, the parts alternate plain, marked, plain,
   * ...: a part is marked exactly at the odd positions, a marked part equals
   * the term ignoring case, and no plain part contains the term.
   */
  lemma HighlightMarksMatches(text: string, term: string)
    requires term != [] && text != []
    ensures
      var r := HighlightSearch(text, term);
      && |r| % 2 == 1
      && (forall i :: 0 <= i < |r| ==>
            && (r[i].Marked? <==> i % 2 == 1)
            && (r[i].Marked? ==> LowerStr(r[i].text) == LowerStr(term))
            && (r[i].Plain? ==> NoMatch(r[i].text, term)))
      && forall i :: 0 <= i < |r| - 1 && i % 2 == 0 ==> LeftmostMatch(r[i].text, r[i + 1].text, term)
  {
    EscapeIsLiteral(term);
    var pieces := SplitAround(text, term);
    var r := HighlightSearch(text, term);
    assert r == MarkAll(pieces, term);
    SplitAroundAlternates(text, term);
    forall i | 0 <= i < |r|
      ensures r[i].Marked? <==> i % 2 == 1
      ensures r[i].Marked? ==> LowerStr(r[i].text) == LowerStr(term)
      ensures r[i].Plain? ==> NoMatch(r[i].text, term)
    {
      assert r[i] == Mark(pieces[i], term);
      assert PieceAt(pieces[i], i, term);
      MarkedAtOdd(pieces[i], i, term);
    }
    SplitAroundLeftmost(text, term);
    forall i | 0 <= i < |r| - 1 && i % 2 == 0
      ensures LeftmostMatch(r[i].text, r[i + 1].text, term)
    {
      assert r[i].text == pieces[i] && r[i + 1].text == pieces[i + 1];
    }
  }

  // ---------------------------------------------------------------------
  // The line classifier of the markdown renderer

  /** The characters `.` in a JavaScript regular expression does not match. */
  predicate IsLineTerminator(c: char) {
    c == '\n' || c == '\r' || c == '\U{2028}' || c == '\U{2029}'
  }

  /** `(.*)` from position `i`: the longest run of characters that are not line terminators. */
  function RunFrom(line: string, i: nat): (r: string)
    requires i <= |line|
    ensures r <= line[i..]
    ensures forall k :: 0 <= k < |r| ==> !IsLineTerminator(r[k])
    ensures i + |r| < |line| ==> IsLineTerminator(line[i + |r|])
    decreases |line| - i
  {
    if i == |line| || IsLineTerminator(line[i]) then []
    else
      assert line[i..] == [line[i]] + line[i + 1..];
      [line[i]] + RunFrom(line, i + 1)
  }

  /** The run from `i` is exactly the text up to the first line terminator, or to the end of the line. */
  lemma {:induction false} RunFromUntil(line: string, i: nat, e: nat)
    requires i <= e <= |line|
    requires forall k :: i <= k < e ==> !IsLineTerminator(line[k])
    requires e == |line| || IsLineTerminator(line[e])
    ensures RunFrom(line, i) == line[i..e]
    decreases e - i
  {
    if i < e {
      RunFromUntil(line, i + 1, e);
      assert line[i..e] == [line[i]] + line[i + 1..e];
    }
  }

  /**
   * `line.match(/^<marker>(.+)/)`: the line starts with the marker and at
   * least one character that is not a line terminator follows it; the
   * capture is the whole run of such characters.
   */
  function MarkerCapture(line: string, marker: string): Option<string> {
    if marker <= line && |marker| < |line| && !IsLineTerminator(line[|marker|]) then Some(RunFrom(line, |marker|))
    else None
  }

  /** A closing `**` starts at position `k`. */
  predicate BoldCloseAt(line: string, k: int) {
    0 <= k && k + 2 <= |line| && line[k] == '*' && line[k + 1] == '*'
  }

  /**
   * `(.+?)\*\*` with the group starting at `start`: the first end `j`, at
   * least one character past `start`, such that `**` follows, provided no
   * line terminator comes before it.
   */
  function LazyBold(line: string, start: nat, j: nat): (r: Option<nat>)
    requires start < j <= |line|
    requires forall k :: start <= k < j - 1 ==> !IsLineTerminator(line[k])
    ensures r.Some? ==>
      && j <= r.value && BoldCloseAt(line, r.value)
      && (forall k :: start <= k < r.value ==> !IsLineTerminator(line[k]))
      && (forall k :: j <= k < r.value ==> !BoldCloseAt(line, k))
    ensures r.None? ==>
      forall k :: j <= k && BoldCloseAt(line, k) ==>
        exists t :: j - 1 <= t < k && IsLineTerminator(line[t])
    decreases |line| - j
  {
    if IsLineTerminator(line[j - 1]) then None
    else if BoldCloseAt(line, j) then Some(j)
    else if j == |line| then None
    else LazyBold(line, start, j + 1)
  }

  /** `line.match(/^- \*\*(.+?)\*\*(.*)/)`: the bold text and what follows the closing `**`. */
  function BoldCapture(line: string): Option<(string, string)> {
    if "- **" <= line && |line| > 4 then
      match LazyBold(line, 4, 5)
      case Some(j) => Some((line[4..j], RunFrom(line, j + 2)))
      case None => None
    else None
  }

  /** The kind a line of memory content is rendered as, with the text each rule captures. */
  datatype LineKind =
    | H1(title: string)
    | H2(title: string)
    | H3(title: string)
    | BoldBullet(strong: string, rest: string)
    | Bullet(item: string)
    | CodeFence
    | Indented
    | Blank
    | Paragraph

  /** The rule chain of `HighlightedContent`: the first rule that matches decides. */
  function Classify(line: string): LineKind {
    match (MarkerCapture(line, "# "), MarkerCapture(line, "## "), MarkerCapture(line, "### "))
    case (Some(t), _, _) => H1(t)
    case (None, Some(t), _) => H2(t)
    case (None, None, Some(t)) => H3(t)
    case (None, None, None) =>
      match (BoldCapture(line), MarkerCapture(line, "- "))
      case (Some((strong, rest)), _) => BoldBullet(strong, rest)
      case (None, Some(t)) => Bullet(t)
      case (None, None) =>
        if "```" <= line then CodeFence
        else if "    " <= line || "\t" <= line then Indented
        else if line == "" then Blank
        else Paragraph
  }

  /**
   * The three heading patterns never match the same line: the character
   * after the run of `#` must be a space, so `## x` is not an `# ` line.
   */
  lemma HeadingsDisjoint(line: string)
    ensures !(MarkerCapture(line, "# ").Some? && MarkerCapture(line, "## ").Some?)
    ensures !(MarkerCapture(line, "# ").Some? && MarkerCapture(line, "### ").Some?)
    ensures !(MarkerCapture(line, "## ").Some? && MarkerCapture(line, "### ").Some?)
  {
    if MarkerCapture(line, "# ").Some? {
      assert line[1] == ' ';
    }
    if MarkerCapture(line, "## ").Some? {
      assert line[2] == ' ';
    }
  }

  /**
   * A heading line is its marker, then a non-empty title free of line
   * terminators, then nothing or a line terminator and whatever follows it.
   */
  lemma HeadingShape(line: string, marker: string)
    requires MarkerCapture(line, marker).Some?
    ensures
      var title := MarkerCapture(line, marker).value;
      && title != []
      && marker + title <= line
      && (forall k :: 0 <= k < |title| ==> !IsLineTerminator(title[k]))
      && (|marker + title| < |line| ==> IsLineTerminator(line[|marker + title|]))
  {
    var title := MarkerCapture(line, marker).value;
    assert line == marker + line[|marker|..];
  }

  /**
   * A bold bullet is `- **`, a non-empty bold text with no line terminator
   * and no `**` starting inside it after its first character, `**`, then
   * the rest of the line up to a line terminator.
   */
  lemma BoldBulletShape(line: string)
    requires BoldCapture(line).Some?
    ensures
      var (strong, rest) := BoldCapture(line).value;
      && strong != []
      && "- **" + strong + "**" + rest <= line
      && (forall k :: 0 <= k < |strong| ==> !IsLineTerminator(strong[k]))
      && (forall k :: 5 <= k < 4 + |strong| ==> !BoldCloseAt(line, k))
      && (forall k :: 0 <= k < |rest| ==> !IsLineTerminator(rest[k]))
  {
    var j := LazyBold(line, 4, 5).value;
    var (strong, rest) := BoldCapture(line).value;
    assert strong == line[4..j];
    assert line[..j + 2] == "- **" + strong + "**";
    assert rest <= line[j + 2..];
    assert line == line[..j + 2] + line[j + 2..];
  }

  /** `## x` is a second-level heading, not a first-level one. */
  lemma SecondLevelHeading()
    ensures Classify("## Notes") == H2("Notes")
  {
    var line := "## Notes";
    assert line[1] != "# "[1];
    RunFromUntil(line, 3, |line|);
    assert line[3..] == "Notes";
  }

  /** A heading marker with nothing after it, or without its space, is ordinary text. */
  lemma BareMarkerIsText()
    ensures Classify("#") == Paragraph
    ensures Classify("# ") == Paragraph
  {
    assert !("- **" <= "#") && !("- " <= "#") && !("```" <= "#");
    assert "#"[0] != "\t"[0];
    assert !("- **" <= "# ") && !("- " <= "# ") && !("```" <= "# ");
    assert "# "[0] != "\t"[0];
  }

  /** The lazy search stops at the first closing `**`. */
  lemma {:induction false} LazyBoldFinds(line: string, start: nat, j: nat, e: nat)
    requires start < j <= e && e + 2 <= |line|
    requires forall k :: start <= k < e ==> !IsLineTerminator(line[k])
    requires forall k :: j <= k < e ==> !BoldCloseAt(line, k)
    requires BoldCloseAt(line, e)
    ensures LazyBold(line, start, j) == Some(e)
    decreases e - j
  {
    if j < e {
      LazyBoldFinds(line, start, j + 1, e);
    }
  }

  /**
   * `- **`, a bold text free of `*` and line terminators, `**`, then a rest
   * free of line terminators, is a bold bullet with those two captures.
   */
  lemma BoldBulletOf(strong: string, rest: string)
    requires strong != [] && '*' !in strong
    requires forall k :: 0 <= k < |strong| ==> !IsLineTerminator(strong[k])
    requires forall k :: 0 <= k < |rest| ==> !IsLineTerminator(rest[k])
    ensures Classify("- **" + strong + "**" + rest) == BoldBullet(strong, rest)
  {
    var line := "- **" + strong + "**" + rest;
    BoldCaptureOf(strong, rest);
    assert line[0] == '-';
    DashIsNoHeading(line);
  }

  /** The bold capture of such a line is the bold text and the rest. */
  lemma BoldCaptureOf(strong: string, rest: string)
    requires strong != [] && '*' !in strong
    requires forall k :: 0 <= k < |strong| ==> !IsLineTerminator(strong[k])
    requires forall k :: 0 <= k < |rest| ==> !IsLineTerminator(rest[k])
    ensures BoldCapture("- **" + strong + "**" + rest) == Some((strong, rest))
  {
    var line := "- **" + strong + "**" + rest;
    var e := 4 + |strong|;
    assert line[..4] == "- **";
    assert line[4..e] == strong;
    assert line[e + 2..] == rest;
    forall k | 4 <= k < e
      ensures !IsLineTerminator(line[k]) && !BoldCloseAt(line, k)
    {
      assert line[k] == strong[k - 4];
    }
    LazyBoldFinds(line, 4, 5, e);
    RunFromUntil(line, e + 2, |line|);
    assert "- **" <= line;
    assert RunFrom(line, e + 2) == rest;
    assert BoldCapture(line) == Some((line[4..e], RunFrom(line, e + 2)));
  }

  /** A line starting with `-` matches none of the heading patterns. */
  lemma DashIsNoHeading(line: string)
    requires line != [] && line[0] == '-'
    ensures MarkerCapture(line, "# ").None?
    ensures MarkerCapture(line, "## ").None?
    ensures MarkerCapture(line, "### ").None?
  {
    assert line[0] != "# "[0] && line[0] != "## "[0] && line[0] != "### "[0];
  }

  /** A `- **` line without a closing `**` is a plain bullet. */
  lemma UnclosedBoldIsBullet()
    ensures Classify("- **open") == Bullet("**open")
  {
    var open := "- **open";
    assert open[..4] == "- **";
    assert LazyBold(open, 4, 5).None? by {
      assert !BoldCloseAt(open, 5) && !BoldCloseAt(open, 6) && !BoldCloseAt(open, 7);
    }
    assert BoldCapture(open).None?;
    DashIsNoHeading(open);
    RunFromUntil(open, 2, |open|);
    assert RunFrom(open, 2) == "**open" by {
      assert open[2..|open|] == "**open";
    }
    assert "- " <= open by {
      assert open[..2] == "- ";
    }
    assert open[2] == '*';
  }

  /** A line opening with three backticks is a code fence. */
  lemma FenceLine()
    ensures Classify("```ts") == CodeFence
  {
    var line := "```ts";
    assert line[0] != "# "[0] && line[0] != "- "[0];
    assert line[..3] == "```";
  }

  /** A tab-indented line is indented code, and the empty line is blank. */
  lemma IndentedAndBlank()
    ensures Classify("\tcode") == Indented
    ensures Classify("") == Blank
  {
    var line := "\tcode";
    assert line[0] != "# "[0] && line[0] != "- "[0] && line[0] != "```"[0];
    assert line[..1] == "\t";
  }

  /** A carriage return left by a CRLF file ends a heading title: it is not part of the capture. */
  lemma CarriageReturnEndsTitle()
    ensures Classify("# Title\r") == H1("Title")
  {
    var line := "# Title\r";
    var title := RunFrom(line, 2);
    assert forall k :: 2 <= k < 7 ==> !IsLineTerminator(line[k]);
    assert IsLineTerminator(line[7]);
    RunFromUntil(line, 2, 7);
    assert line[2..7] == "Title";
    assert line[..2] == "# ";
  }

  /** One rendered line: the highlighted captures, or the raw line for a code fence. */
  datatype Block =
    | Heading(level: nat, title: seq<Part>)
    | BoldItem(strong: seq<Part>, rest: seq<Part>)
    | Item(text: seq<Part>)
    | Fence(line: string)
    | Code(text: seq<Part>)
    | Spacer
    | Text(text: seq<Part>)

  function RenderLine(line: string, term: string): Block {
    match Classify(line)
    case H1(t) => Heading(1, HighlightSearch(t, term))
    case H2(t) => Heading(2, HighlightSearch(t, term))
    case H3(t) => Heading(3, HighlightSearch(t, term))
    case BoldBullet(strong, rest) => BoldItem(HighlightSearch(strong, term), HighlightSearch(rest, term))
    case Bullet(t) => Item(HighlightSearch(t, term))
    case CodeFence => Fence(line)
    case Indented => Code(HighlightSearch(line, term))
    case Blank => Spacer
    case Paragraph => Text(HighlightSearch(line, term))
  }

  function RenderLines(lines: seq<string>, term: string): (r: seq<Block>)
    ensures |r| == |lines|
    ensures forall i :: 0 <= i < |r| ==> r[i] == RenderLine(lines[i], term)
  {
    if lines == [] then [] else [RenderLine(lines[0], term)] + RenderLines(lines[1..], term)
  }

  /** `HighlightedContent`: one block per line of `content.split('\n')`. */
  function Render(content: string, term: string): seq<Block> {
    RenderLines(Split(content, '\n'), term)
  }

  /**
   * Every line of the content, empty ones included, gives exactly one block,
   * in order, and the lines are the content cut at its line feeds.
   */
  lemma RenderOneBlockPerLine(content: string, term: string)
    ensures
      var lines := Split(content, '\n');
      var blocks := Render(content, term);
      && |blocks| == |lines|
      && Join(lines, '\n') == content
      && forall i :: 0 <= i < |blocks| ==> blocks[i] == RenderLine(lines[i], term) && '\n' !in lines[i]
  {
    JoinSplit(content, '\n');
  }
}

/**
 * String primitives of the JavaScript runtime that the dashboard relies on,
 * over `seq<char>`: ASCII lower-casing, `includes`, `startsWith`,
 * `split` on one character, and the decimal rendering of integers.
 */
module Text {
  import opened Wrappers
  import Seqs

  /** `toLowerCase` restricted to ASCII: 'A'..'Z' map to 'a'..'z', every other character is kept. */
  function Lower(c: char): char {
    if 'A' <= c <= 'Z' then (c as int + 32) as char else c
  }

  function LowerStr(s: string): string {
    seq(|s|, i requires 0 <= i < |s| => Lower(s[i]))
  }

  lemma LowerStrIdempotent(s: string)
    ensures LowerStr(LowerStr(s)) == LowerStr(s)
  {
  }

  /** `sub` occurs in `s` starting at index `i`. */
  predicate OccursAt(s: string, sub: string, i: int) {
    0 <= i && i + |sub| <= |s| && s[i..i + |sub|] == sub
  }

  /** `s.includes(sub)`, scanning left to right. */
  predicate Contains(s: string, sub: string)
    decreases |s|
  {
    sub <= s || (s != [] && Contains(s[1..], sub))
  }

  /** The scan finds an occurrence exactly when one exists at some offset. */
  lemma {:induction false} ContainsIff(s: string, sub: string)
    ensures Contains(s, sub) <==> exists i :: OccursAt(s, sub, i)
    decreases |s|
  {
    assert sub <= s <==> OccursAt(s, sub, 0);
    if s != [] && !(sub <= s) {
      ContainsIff(s[1..], sub);
      if exists i :: OccursAt(s[1..], sub, i) {
        var i :| OccursAt(s[1..], sub, i);
        assert s[1..][i..i + |sub|] == s[i + 1..i + 1 + |sub|];
        assert OccursAt(s, sub, i + 1);
      }
      if exists i :: OccursAt(s, sub, i) {
        var i :| OccursAt(s, sub, i);
        assert s[1..][i - 1..i - 1 + |sub|] == s[i..i + |sub|];
        assert OccursAt(s[1..], sub, i - 1);
      }
    }
  }

  /** An occurrence needs room for the whole of `sub`, and its first character in `s`. */
  lemma {:induction false} ContainsNeeds(s: string, sub: string)
    requires sub != []
    ensures Contains(s, sub) ==> sub[0] in s && |sub| <= |s|
    decreases |s|
  {
    if s != [] {
      ContainsNeeds(s[1..], sub);
      assert s == [s[0]] + s[1..];
    }
  }

  /** Every string includes itself and the empty string. */
  lemma ContainsSelf(s: string)
    ensures Contains(s, s) && Contains(s, [])
  {
  }

  /** `s.split(sep)` for a one-character separator: always at least one part, none holding `sep`. */
  function Split(s: string, sep: char): (parts: seq<string>)
    ensures |parts| >= 1
    ensures forall k :: 0 <= k < |parts| ==> sep !in parts[k]
    decreases |s|
  {
    if s == [] then [[]]
    else
      var rest := Split(s[1..], sep);
      if s[0] == sep then [[]] + rest
      else [[s[0]] + rest[0]] + rest[1..]
  }

  /** `parts.join(sep)` */
  function Join(parts: seq<string>, sep: char): string
    requires |parts| >= 1
    decreases |parts|
  {
    if |parts| == 1 then parts[0] else parts[0] + [sep] + Join(parts[1..], sep)
  }

  /** Joining the parts back with the separator restores the string. */
  lemma {:induction false} JoinSplit(s: string, sep: char)
    ensures Join(Split(s, sep), sep) == s
    decreases |s|
  {
    if s != [] {
      JoinSplit(s[1..], sep);
      var rest := Split(s[1..], sep);
      if s[0] == sep {
        assert ([[]] + rest)[1..] == rest;
      } else {
        var parts := [[s[0]] + rest[0]] + rest[1..];
        if |rest| > 1 {
          assert parts[1..] == rest[1..];
        }
      }
    }
  }

  lemma {:induction false} SplitNoSep(a: string, sep: char)
    requires sep !in a
    ensures Split(a, sep) == [a]
    decreases |a|
  {
    if a != [] {
      SplitNoSep(a[1..], sep);
      assert [a[0]] + a[1..] == a;
    }
  }

  lemma {:induction false} SplitAppend(a: string, b: string, sep: char)
    ensures Split(a + [sep] + b, sep) == Split(a, sep) + Split(b, sep)
    decreases |a|
  {
    if a == [] {
      assert a + [sep] + b == [sep] + b;
      SplitCons(sep, b, sep);
    } else {
      SplitAppend(a[1..], b, sep);
      SplitAppendStep(a[0], a[1..], b, sep);
      assert [a[0]] + a[1..] == a;
    }
  }

  /** One more character in front of the first text keeps the split of the joined texts the joined splits. */
  lemma SplitAppendStep(c: char, t: string, b: string, sep: char)
    requires Split(t + [sep] + b, sep) == Split(t, sep) + Split(b, sep)
    ensures Split([c] + t + [sep] + b, sep) == Split([c] + t, sep) + Split(b, sep)
  {
    var x := t + [sep] + b;
    assert [c] + t + [sep] + b == [c] + x;
    SplitPrepend(c, x, t, Split(b, sep), sep);
  }

  /** If `x` splits into the parts of `y` and then `q`, so does `c` in front of each. */
  lemma SplitPrepend(c: char, x: string, y: string, q: seq<string>, sep: char)
    requires Split(x, sep) == Split(y, sep) + q
    ensures Split([c] + x, sep) == Split([c] + y, sep) + q
  {
    var p := Split(y, sep);
    SplitCons(c, x, sep);
    SplitCons(c, y, sep);
    if c == sep {
      assert [[]] + (p + q) == ([[]] + p) + q;
    } else {
      ConsFirst([c], p, q);
    }
  }

  /** Extending the first part of a split distributes over appending more parts. */
  lemma ConsFirst(head: string, p: seq<string>, q: seq<string>)
    requires p != []
    ensures [head + (p + q)[0]] + (p + q)[1..] == ([head + p[0]] + p[1..]) + q
  {
    assert (p + q)[0] == p[0];
    assert (p + q)[1..] == p[1..] + q;
  }

  /** Splitting a text that starts with `c`: a new empty part when `c` is the separator, else `c` joins the first part. */
  lemma SplitCons(c: char, t: string, sep: char)
    ensures Split([c] + t, sep) ==
      if c == sep then [[]] + Split(t, sep) else [[c] + Split(t, sep)[0]] + Split(t, sep)[1..]
  {
    assert ([c] + t)[0] == c;
    assert ([c] + t)[1..] == t;
  }

  /** Splitting a join of separator-free parts gives the parts back. */
  lemma {:induction false} SplitJoin(parts: seq<string>, sep: char)
    requires |parts| >= 1
    requires forall k :: 0 <= k < |parts| ==> sep !in parts[k]
    ensures Split(Join(parts, sep), sep) == parts
    decreases |parts|
  {
    SplitNoSep(parts[0], sep);
    if |parts| > 1 {
      SplitJoin(parts[1..], sep);
      SplitAppend(parts[0], Join(parts[1..], sep), sep);
      assert [parts[0]] + parts[1..] == parts;
    }
  }

  /** `Boolean(line)`: the empty string is the only falsy string. */
  predicate NonEmpty(line: string) {
    line != []
  }

  /** `raw.split('\n').filter(Boolean)` */
  function NonEmptyLines(raw: string): seq<string> {
    Seqs.Filter(Split(raw, '\n'), NonEmpty)
  }

  /** The kept lines are the non-empty lines of the text, in file order and as often as they occur: none empty, none holding a newline, none missed. */
  lemma NonEmptyLinesSpec(raw: string)
    ensures forall k :: 0 <= k < |NonEmptyLines(raw)| ==>
      NonEmptyLines(raw)[k] != [] && '\n' !in NonEmptyLines(raw)[k] && NonEmptyLines(raw)[k] in Split(raw, '\n')
    ensures forall k :: 0 <= k < |Split(raw, '\n')| && Split(raw, '\n')[k] != [] ==> Split(raw, '\n')[k] in NonEmptyLines(raw)
    ensures forall line :: multiset(NonEmptyLines(raw))[line] == if line != [] then multiset(Split(raw, '\n'))[line] else 0
    ensures Seqs.IsSubseq(NonEmptyLines(raw), Split(raw, '\n'))
  {
    Seqs.FilterIsSubseq(Split(raw, '\n'), NonEmpty);
    Seqs.FilterMembers(Split(raw, '\n'), NonEmpty);
    Seqs.FilterMultiset(Split(raw, '\n'), NonEmpty);
  }

  predicate IsDigit(c: char) {
    '0' <= c <= '9'
  }

  function Digit(d: nat): (c: char)
    requires d < 10
    ensures IsDigit(c)
  {
    ('0' as int + d) as char
  }

  predicate AllDigits(s: string) {
    forall i :: 0 <= i < |s| ==> IsDigit(s[i])
  }

  /** `String(n)` for a non-negative integer: decimal digits, no leading zero. */
  function NatToString(n: nat): (r: string)
    ensures |r| >= 1 && AllDigits(r)
    ensures |r| > 1 ==> r[0] != '0'
    decreases n
  {
    if n < 10 then [Digit(n)] else NatToString(n / 10) + [Digit(n % 10)]
  }

  /** `String(n)` / `${n}` for an integer. */
  function IntToString(n: int): (r: string)
    ensures |r| >= 1
    ensures n >= 0 <==> IsDigit(r[0])
    ensures ' ' !in r
  {
    if n < 0 then "-" + NatToString(-n) else NatToString(n)
  }

  /** The value of a string of decimal digits. */
  function DigitsValue(s: string): nat
    requires AllDigits(s)
    decreases |s|
  {
    if s == [] then 0 else DigitsValue(s[..|s| - 1]) * 10 + (s[|s| - 1] as int - '0' as int)
  }

  /** Reads an optionally negative decimal integer; anything else is rejected. */
  function ReadInt(s: string): Option<int> {
    if |s| >= 2 && s[0] == '-' && AllDigits(s[1..]) then Some(-(DigitsValue(s[1..]) as int))
    else if |s| >= 1 && AllDigits(s) then Some(DigitsValue(s))
    else None
  }

  lemma {:induction false} NatToStringValue(n: nat)
    ensures DigitsValue(NatToString(n)) == n
    decreases n
  {
    if n >= 10 {
      NatToStringValue(n / 10);
      var s := NatToString(n);
      assert s[..|s| - 1] == NatToString(n / 10);
    }
  }

  /** Reading the decimal rendering of an integer gives the integer back. */
  lemma IntToStringRoundTrip(n: int)
    ensures ReadInt(IntToString(n)) == Some(n)
  {
    if n < 0 {
      var digits := NatToString(-n);
      NatToStringValue(-n);
      assert IntToString(n) == "-" + digits;
      assert ("-" + digits)[1..] == digits;
      assert ("-" + digits)[0] == '-';
    } else {
      NatToStringValue(n);
      assert !IsDigit('-');
    }
  }
}

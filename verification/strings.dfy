/** String helpers with the semantics of the JavaScript built-ins the modelled
    code calls: `startsWith`, `indexOf(sub) !== -1`, `split(sep)`,
    `join(sep)`, template literals over integers, `toUpperCase` on ASCII. */
module Strings {

  /** `s.startsWith(p)` (also `s.indexOf(p) === 0`). */
  predicate StartsWith(s: string, p: string) {
    p <= s
  }

  /** `s` holds `sub` starting at index `i`. */
  ghost predicate OccursAt(s: string, sub: string, i: int) {
    0 <= i && i + |sub| <= |s| && s[i..i + |sub|] == sub
  }

  /** `s.indexOf(sub) !== -1`: `sub` occurs anywhere in `s`. */
  function Contains(s: string, sub: string): (r: bool)
    ensures r <==> exists i :: OccursAt(s, sub, i)
    decreases |s|
  {
    if sub <= s then
      assert OccursAt(s, sub, 0);
      true
    else if s == [] then
      false
    else
      var r := Contains(s[1..], sub);
      assert forall i :: OccursAt(s[1..], sub, i) ==> OccursAt(s, sub, i + 1) by {
        forall i | OccursAt(s[1..], sub, i)
          ensures OccursAt(s, sub, i + 1)
        {
          assert s[1..][i..i + |sub|] == s[i + 1..i + 1 + |sub|];
        }
      }
      assert forall i :: OccursAt(s, sub, i) && i > 0 ==> OccursAt(s[1..], sub, i - 1) by {
        forall i | OccursAt(s, sub, i) && i > 0
          ensures OccursAt(s[1..], sub, i - 1)
        {
          assert s[1..][i - 1..i - 1 + |sub|] == s[i..i + |sub|];
        }
      }
      r
  }

  /** Character-wise replacement of `a` by `b`. */
  function ReplaceChar(s: string, a: char, b: char): (r: string)
    ensures |r| == |s|
    ensures forall i :: 0 <= i < |s| ==> r[i] == if s[i] == a then b else s[i]
  {
    if s == [] then [] else [if s[0] == a then b else s[0]] + ReplaceChar(s[1..], a, b)
  }

  /** `s.split(c)` for a one-character separator: never empty, and no part
      contains the separator. */
  function Split(s: string, c: char): (parts: seq<string>)
    ensures |parts| >= 1
    ensures forall i :: 0 <= i < |parts| ==> c !in parts[i]
  {
    if s == [] then [""]
    else
      var rest := Split(s[1..], c);
      if s[0] == c then [""] + rest
      else [[s[0]] + rest[0]] + rest[1..]
  }

  /** `parts.join(c)`. */
  function Join(parts: seq<string>, c: char): string
    requires |parts| >= 1
  {
    if |parts| == 1 then parts[0] else parts[0] + [c] + Join(parts[1..], c)
  }

  /** `s.split(a).join(b)` replaces every `a` by `b`. */
  lemma {:induction false} JoinSplitIsReplace(s: string, a: char, b: char)
    ensures Join(Split(s, a), b) == ReplaceChar(s, a, b)
  {
    if s != [] {
      JoinSplitIsReplace(s[1..], a, b);
      var rest := Split(s[1..], a);
      if s[0] != a && |rest| > 1 {
        assert Join(rest, b) == rest[0] + [b] + Join(rest[1..], b);
      }
    }
  }

  /** Splitting a string that does not contain the separator yields it whole. */
  lemma {:induction false} SplitWithoutSeparator(p: string, c: char)
    requires c !in p
    ensures Split(p, c) == [p]
  {
    if p != [] {
      SplitWithoutSeparator(p[1..], c);
      assert [p[0]] + p[1..] == p;
    }
  }

  lemma {:induction false} SplitAtSeparator(p: string, c: char, y: string)
    requires c !in p
    ensures Split(p + [c] + y, c) == [p] + Split(y, c)
  {
    if p == [] {
      assert p + [c] + y == [c] + y;
    } else {
      SplitAtSeparator(p[1..], c, y);
      assert (p + [c] + y)[1..] == p[1..] + [c] + y;
      assert [p[0]] + p[1..] == p;
    }
  }

  /** `join` followed by `split` on the same separator restores the parts when
      no part contains the separator. */
  lemma {:induction false} SplitJoinRoundTrip(parts: seq<string>, c: char)
    requires |parts| >= 1
    requires forall i :: 0 <= i < |parts| ==> c !in parts[i]
    ensures Split(Join(parts, c), c) == parts
  {
    if |parts| == 1 {
      SplitWithoutSeparator(parts[0], c);
    } else {
      SplitJoinRoundTrip(parts[1..], c);
      SplitAtSeparator(parts[0], c, Join(parts[1..], c));
    }
  }

  /** Joining one more part appends the separator and the part. */
  lemma {:induction false} JoinSnoc(parts: seq<string>, x: string, c: char)
    requires |parts| >= 1
    ensures Join(parts + [x], c) == Join(parts, c) + [c] + x
    decreases |parts|
  {
    if |parts| > 1 {
      assert (parts + [x])[1..] == parts[1..] + [x];
      JoinSnoc(parts[1..], x, c);
    }
  }

  function DigitChar(d: nat): (ch: char)
    requires d < 10
    ensures '0' <= ch <= '9'
  {
    ('0' as int + d) as char
  }

  /** Decimal rendering of a natural number, as a template literal prints it. */
  function NatToString(n: nat): (s: string)
    ensures |s| >= 1
    ensures n >= 10 ==> |s| >= 2
    ensures forall i :: 0 <= i < |s| ==> '0' <= s[i] <= '9'
  {
    if n < 10 then [DigitChar(n)] else NatToString(n / 10) + [DigitChar(n % 10)]
  }

  /** Different numbers print differently. */
  lemma {:induction false} NatToStringInjective(a: nat, b: nat)
    requires NatToString(a) == NatToString(b)
    ensures a == b
  {
    if a >= 10 && b >= 10 {
      var sa := NatToString(a);
      var sb := NatToString(b);
      assert sa[|sa| - 1] == sb[|sb| - 1];
      assert sa[..|sa| - 1] == NatToString(a / 10);
      assert sb[..|sb| - 1] == NatToString(b / 10);
      NatToStringInjective(a / 10, b / 10);
    }
  }

  /** `toUpperCase` on one ASCII character. */
  function ToUpper(ch: char): (r: char)
    ensures 'a' <= ch <= 'z' ==> 'A' <= r <= 'Z' && r as int == ch as int - 32
    ensures !('a' <= ch <= 'z') ==> r == ch
  {
    if 'a' <= ch <= 'z' then (ch as int - 32) as char else ch
  }

  predicate IsLower(ch: char) {
    'a' <= ch <= 'z'
  }
}

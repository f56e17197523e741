/**
 The handful of JavaScript string operations the storefront relies on:
 `includes`, `startsWith`, `split`, `replace` with a string pattern and an
 ASCII `toLowerCase`. Each is defined by recursion and characterised by an
 independent, index-based contract.
 */
module Strings {

  /** `p` occurs in `s` starting at position `i`. */
  predicate OccursAt(s: string, p: string, i: int) {
    0 <= i && i + |p| <= |s| && s[i..i + |p|] == p
  }

  predicate StartsWith(s: string, p: string) {
    |p| <= |s| && s[..|p|] == p
  }

  /** JavaScript `s.includes(p)`, and the substring test of a regular expression without anchors. */
  function Includes(s: string, p: string): bool
    decreases |s|
  {
    if |s| < |p| then false
    else s[..|p|] == p || Includes(s[1..], p)
  }

  /** `Includes` holds exactly when some position of `s` starts an occurrence of `p`. */
  lemma {:induction false} IncludesIff(s: string, p: string)
    ensures Includes(s, p) <==> exists i :: OccursAt(s, p, i)
    decreases |s|
  {
    if |s| < |p| {
    } else if s[..|p|] == p {
      assert OccursAt(s, p, 0);
    } else {
      IncludesIff(s[1..], p);
      if Includes(s[1..], p) {
        var i :| OccursAt(s[1..], p, i);
        ShiftOccurrence(s, p, i);
      } else {
        forall i | OccursAt(s, p, i)
          ensures false
        {
          assert i != 0;
          ShiftOccurrence(s, p, i - 1);
        }
      }
    }
  }

  /** An occurrence in `s[1..]` at `i` is an occurrence in `s` at `i + 1`, and conversely. */
  lemma ShiftOccurrence(s: string, p: string, i: int)
    requires |s| >= 1 && 0 <= i
    ensures OccursAt(s[1..], p, i) <==> OccursAt(s, p, i + 1)
  {
    if 0 <= i && i + 1 + |p| <= |s| {
      assert s[1..][i..i + |p|] == s[i + 1..i + 1 + |p|];
    }
  }

  /** No occurrence of `p` in `s` starts before position `i`. */
  predicate NoOccurrenceBefore(s: string, p: string, i: int) {
    forall j :: 0 <= j < i ==> !OccursAt(s, p, j)
  }

  /**
   JavaScript `s.replace(p, '')` with a string pattern: only the FIRST
   occurrence of `p` is removed.
   */
  function RemoveFirst(s: string, p: string): string
    decreases |s|
  {
    if |s| < |p| then s
    else if s[..|p|] == p then s[|p|..]
    else [s[0]] + RemoveFirst(s[1..], p)
  }

  /** Without an occurrence of `p`, `RemoveFirst` returns `s` unchanged. */
  lemma {:induction false} RemoveFirstAbsent(s: string, p: string)
    requires forall i :: !OccursAt(s, p, i)
    ensures RemoveFirst(s, p) == s
    decreases |s|
  {
    if |s| >= |p| {
      assert !OccursAt(s, p, 0);
      forall i | 0 <= i
        ensures !OccursAt(s[1..], p, i)
      {
        ShiftOccurrence(s, p, i);
      }
      RemoveFirstAbsent(s[1..], p);
    }
  }

  /** With a first occurrence at `i`, exactly those `|p|` characters are cut out. */
  lemma {:induction false} RemoveFirstAt(s: string, p: string, i: int)
    requires OccursAt(s, p, i) && NoOccurrenceBefore(s, p, i)
    ensures RemoveFirst(s, p) == s[..i] + s[i + |p|..]
    decreases |s|
  {
    if i > 0 {
      var t := s[1..];
      assert !OccursAt(s, p, 0);
      assert RemoveFirst(s, p) == [s[0]] + RemoveFirst(t, p);
      ShiftOccurrence(s, p, i - 1);
      forall j | 0 <= j < i - 1
        ensures !OccursAt(t, p, j)
      {
        ShiftOccurrence(s, p, j);
      }
      RemoveFirstAt(t, p, i - 1);
      assert t[..i - 1] == s[1..i];
      assert t[i - 1 + |p|..] == s[i + |p|..];
      assert s[..i] == [s[0]] + s[1..i];
    }
  }

  function LowerChar(c: char): char {
    if 'A' <= c <= 'Z' then (c as int + 32) as char else c
  }

  /** `toLowerCase`, restricted to the ASCII letters. */
  function ToLower(s: string): (r: string)
    ensures |r| == |s|
    ensures forall i :: 0 <= i < |s| ==> r[i] == LowerChar(s[i])
  {
    seq(|s|, i requires 0 <= i < |s| => LowerChar(s[i]))
  }

  /** Position of the first `c` in `s`, or `|s|` when there is none. */
  function IndexOfChar(s: string, c: char): (k: nat)
    ensures k <= |s|
    ensures c !in s[..k]
    ensures k < |s| ==> s[k] == c
  {
    if |s| == 0 then 0
    else if s[0] == c then 0
    else 1 + IndexOfChar(s[1..], c)
  }

  /**
   JavaScript `s.split(c)` for a one-character separator: the pieces between
   the separators, so there is always at least one piece.
   */
  function Split(s: string, c: char): (parts: seq<string>)
    ensures |parts| >= 1
    decreases |s|
  {
    var k := IndexOfChar(s, c);
    if k == |s| then [s]
    else [s[..k]] + Split(s[k + 1..], c)
  }

  /** No piece of a split holds the separator. */
  lemma {:induction false} SplitPiecesFree(s: string, c: char)
    ensures forall k :: 0 <= k < |Split(s, c)| ==> c !in Split(s, c)[k]
    decreases |s|
  {
    var k := IndexOfChar(s, c);
    if k < |s| {
      SplitPiecesFree(s[k + 1..], c);
      var parts := Split(s, c);
      forall j | 0 <= j < |parts|
        ensures c !in parts[j]
      {
        if j > 0 {
          assert parts[j] == Split(s[k + 1..], c)[j - 1];
        }
      }
    }
  }

  /** JavaScript `parts.join(c)`, the inverse of `Split`. */
  function Join(parts: seq<string>, c: char): string
    requires |parts| >= 1
  {
    if |parts| == 1 then parts[0]
    else parts[0] + [c] + Join(parts[1..], c)
  }

  lemma {:induction false} JoinSplit(s: string, c: char)
    ensures Join(Split(s, c), c) == s
    decreases |s|
  {
    var k := IndexOfChar(s, c);
    if k < |s| {
      var rest := Split(s[k + 1..], c);
      var parts := Split(s, c);
      assert parts == [s[..k]] + rest;
      assert parts[0] == s[..k] && parts[1..] == rest;
      assert Join(parts, c) == s[..k] + [c] + Join(rest, c);
      JoinSplit(s[k + 1..], c);
      assert s == s[..k] + [c] + s[k + 1..];
    }
  }

  lemma {:induction false} SplitJoin(parts: seq<string>, c: char)
    requires |parts| >= 1
    requires forall k :: 0 <= k < |parts| ==> c !in parts[k]
    ensures Split(Join(parts, c), c) == parts
    decreases |parts|
  {
    if |parts| > 1 {
      var s := Join(parts, c);
      var tail := Join(parts[1..], c);
      assert s == parts[0] + [c] + tail;
      assert IndexOfChar(s, c) == |parts[0]| by {
        IndexOfCharOfSeparated(parts[0], tail, c);
      }
      assert s[|parts[0]| + 1..] == tail;
      assert s[..|parts[0]|] == parts[0];
      SplitJoin(parts[1..], c);
    } else {
      assert IndexOfChar(parts[0], c) == |parts[0]| by {
        IndexOfCharAbsent(parts[0], c);
      }
    }
  }

  lemma {:induction false} IndexOfCharAbsent(s: string, c: char)
    requires c !in s
    ensures IndexOfChar(s, c) == |s|
    decreases |s|
  {
    if |s| > 0 {
      IndexOfCharAbsent(s[1..], c);
    }
  }

  lemma {:induction false} IndexOfCharOfSeparated(a: string, b: string, c: char)
    requires c !in a
    ensures IndexOfChar(a + [c] + b, c) == |a|
    decreases |a|
  {
    if |a| > 0 {
      assert (a + [c] + b)[1..] == a[1..] + [c] + b;
      IndexOfCharOfSeparated(a[1..], b, c);
    }
  }

  /** Splitting at a separator we placed splits both halves independently. */
  lemma SplitAround(a: string, b: string, c: char)
    ensures Split(a + [c] + b, c) == Split(a, c) + Split(b, c)
  {
    var s := a + [c] + b;
    assert s[..|a|] == a && s[|a| + 1..] == b;
    SplitAt(s, |a|, c);
  }

  /** Splitting at any separator position splits both sides independently. */
  lemma {:induction false} SplitAt(s: string, i: nat, c: char)
    requires i < |s| && s[i] == c
    ensures Split(s, c) == Split(s[..i], c) + Split(s[i + 1..], c)
    decreases i, 2
  {
    var k := IndexOfChar(s, c);
    IndexOfCharAtMost(s, c, i);
    if k == i {
      SplitUnfold(s, c);
      assert s[..i][..i] == s[..i];
      SplitWithout(s[..i], c);
    } else {
      SplitAtLater(s, i, c);
    }
  }

  /** `SplitAt` when an earlier separator comes first: peel off the first piece and recurse. */
  lemma {:induction false} SplitAtLater(s: string, i: nat, c: char)
    requires i < |s| && s[i] == c && IndexOfChar(s, c) < i
    ensures Split(s, c) == Split(s[..i], c) + Split(s[i + 1..], c)
    decreases i, 1
  {
    var k := IndexOfChar(s, c);
    SplitUnfold(s, c);
    SplitAfterFirst(s, i, c);
    SplitPrefixUnfold(s, i, c);
    Regroup(Split(s, c), Split(s[k + 1..], c), Split(s[..i], c), [s[..k]], Split(s[k + 1..i], c), Split(s[i + 1..], c));
  }

  /** Splitting off a first piece and splitting the rest at a later separator regroup into the two halves. */
  lemma Regroup<T>(whole: seq<T>, rest: seq<T>, front: seq<T>, head: seq<T>, middle: seq<T>, tail: seq<T>)
    requires whole == head + rest && rest == middle + tail && front == head + middle
    ensures whole == front + tail
  {
    assert head + (middle + tail) == (head + middle) + tail;
  }

  /** The text after the first separator splits at the later separator `i`. */
  lemma {:induction false} SplitAfterFirst(s: string, i: nat, c: char)
    requires i < |s| && s[i] == c && IndexOfChar(s, c) < i
    ensures Split(s[IndexOfChar(s, c) + 1..], c) == Split(s[IndexOfChar(s, c) + 1..i], c) + Split(s[i + 1..], c)
    decreases i, 0
  {
    var k := IndexOfChar(s, c);
    var t := s[k + 1..];
    var j := i - k - 1;
    assert t[j] == c;
    SplitAt(t, j, c);
    SliceOfSuffix(s, k + 1, i);
  }

  /** The first separator comes no later than any separator. */
  lemma {:induction false} IndexOfCharAtMost(s: string, c: char, i: nat)
    requires i < |s| && s[i] == c
    ensures IndexOfChar(s, c) <= i
    decreases i
  {
    if s[0] != c {
      assert s[1..][i - 1] == c;
      IndexOfCharAtMost(s[1..], c, i - 1);
    }
  }

  /** Slices of a suffix are slices of the whole. */
  lemma SliceOfSuffix(s: string, k: nat, i: nat)
    requires k <= i < |s|
    ensures s[k..][..i - k] == s[k..i] && s[k..][i - k + 1..] == s[i + 1..]
  {
  }

  /** One step of `Split` at the first separator. */
  lemma SplitUnfold(s: string, c: char)
    requires IndexOfChar(s, c) < |s|
    ensures Split(s, c) == [s[..IndexOfChar(s, c)]] + Split(s[IndexOfChar(s, c) + 1..], c)
  {
  }

  /** A text without the separator is its own single piece. */
  lemma SplitWithout(s: string, c: char)
    requires c !in s
    ensures Split(s, c) == [s]
  {
    IndexOfCharAbsent(s, c);
  }

  /** Cutting a text before a later separator keeps its first piece and splits the rest. */
  lemma SplitPrefixUnfold(s: string, i: nat, c: char)
    requires i <= |s| && IndexOfChar(s, c) < i
    ensures Split(s[..i], c) == [s[..IndexOfChar(s, c)]] + Split(s[IndexOfChar(s, c) + 1..i], c)
  {
    var k := IndexOfChar(s, c);
    assert s == s[..i] + s[i..];
    assert s[..i][k] == c;
    IndexOfCharPrefix(s[..i], s[i..], c);
    SplitUnfold(s[..i], c);
    assert s[..i][..k] == s[..k] && s[..i][k + 1..] == s[k + 1..i];
  }

  lemma {:induction false} IndexOfCharPrefix(a: string, b: string, c: char)
    requires c in a
    ensures IndexOfChar(a + b, c) == IndexOfChar(a, c)
    decreases |a|
  {
    if a[0] != c {
      assert (a + b)[1..] == a[1..] + b;
      IndexOfCharPrefix(a[1..], b, c);
    }
  }

  function DigitChar(d: nat): char
    requires d < 10
  {
    ('0' as int + d) as char
  }

  /** The decimal text of a natural number, as a template literal prints it. */
  function Decimal(n: nat): (s: string)
    ensures |s| > 0
    ensures forall i :: 0 <= i < |s| ==> '0' <= s[i] <= '9'
  {
    if n < 10 then [DigitChar(n)] else Decimal(n / 10) + [DigitChar(n % 10)]
  }

  /** Reading the digits back gives the number: distinct numbers print differently. */
  function DigitsValue(s: string): int
  {
    if |s| == 0 then 0 else DigitsValue(s[..|s| - 1]) * 10 + (s[|s| - 1] as int - '0' as int)
  }

  lemma {:induction false} DecimalValue(n: nat)
    ensures DigitsValue(Decimal(n)) == n
  {
    if n >= 10 {
      DecimalValue(n / 10);
      var s := Decimal(n);
      assert s[..|s| - 1] == Decimal(n / 10);
    }
  }
}

/**
 * The string operations of the JavaScript runtime that the content script uses:
 * `trim`, `toLowerCase`, `includes`, `slice(0, n)`, `split`, `join` and
 * `Array.from(new Set(xs))`.
 */
module Text {

  /** The characters `String.prototype.trim` removes (WhiteSpace and LineTerminator). */
  predicate IsWhitespace(c: char)
  {
    || c == '\t' || c == '\n' || c == '\U{B}' || c == '\U{C}' || c == '\r' || c == ' '
    || c == '\U{A0}' || c == '\U{1680}' || ('\U{2000}' <= c <= '\U{200A}')
    || c == '\U{2028}' || c == '\U{2029}' || c == '\U{202F}' || c == '\U{205F}'
    || c == '\U{3000}' || c == '\U{FEFF}'
  }

  /** What `trim()` guarantees of its result: no whitespace at either end. */
  predicate IsTrimmed(s: string)
  {
    s == [] || (!IsWhitespace(s[0]) && !IsWhitespace(s[|s| - 1]))
  }

  /** The first position at or after `lo` that does not hold whitespace, or `|s|`. */
  function StartOfText(s: string, lo: nat): (k: nat)
    requires lo <= |s|
    ensures lo <= k <= |s|
    ensures k < |s| ==> !IsWhitespace(s[k])
    decreases |s| - lo
  {
    if lo < |s| && IsWhitespace(s[lo]) then StartOfText(s, lo + 1) else lo
  }

  /** Everything `StartOfText` skips is whitespace. */
  lemma {:induction false} StartOfTextSkipsWhitespace(s: string, lo: nat)
    requires lo <= |s|
    ensures forall i :: lo <= i < StartOfText(s, lo) ==> IsWhitespace(s[i])
    decreases |s| - lo
  {
    if lo < |s| && IsWhitespace(s[lo]) {
      StartOfTextSkipsWhitespace(s, lo + 1);
    }
  }

  /** The end of `s[lo..hi]` once whitespace at its end is dropped. */
  function EndOfText(s: string, lo: nat, hi: nat): (e: nat)
    requires lo <= hi <= |s|
    ensures lo <= e <= hi
    ensures lo < e ==> !IsWhitespace(s[e - 1])
    decreases hi
  {
    if lo < hi && IsWhitespace(s[hi - 1]) then EndOfText(s, lo, hi - 1) else hi
  }

  /** Everything `EndOfText` cuts off is whitespace. */
  lemma {:induction false} EndOfTextSkipsWhitespace(s: string, lo: nat, hi: nat)
    requires lo <= hi <= |s|
    ensures forall i :: EndOfText(s, lo, hi) <= i < hi ==> IsWhitespace(s[i])
    decreases hi
  {
    if lo < hi && IsWhitespace(s[hi - 1]) {
      EndOfTextSkipsWhitespace(s, lo, hi - 1);
    }
  }

  /** `r` is `s[i..i + |r|]` and everything of `s` around it is whitespace. */
  ghost predicate StrippedAt(s: string, i: nat, r: string)
  {
    && i + |r| <= |s| && r == s[i..i + |r|]
    && (forall k :: 0 <= k < i ==> IsWhitespace(s[k]))
    && (forall k :: i + |r| <= k < |s| ==> IsWhitespace(s[k]))
  }

  /** `s.trim()`: the slice of `s` left once whitespace is stripped from both ends. */
  function Trim(s: string): (r: string)
    ensures IsTrimmed(r)
  {
    var i := StartOfText(s, 0);
    s[i..EndOfText(s, i, |s|)]
  }

  /** `trim()` returns the slice of `s` that has only whitespace around it. */
  lemma TrimIsStripped(s: string)
    ensures StrippedAt(s, StartOfText(s, 0), Trim(s))
  {
    var i := StartOfText(s, 0);
    StartOfTextSkipsWhitespace(s, 0);
    EndOfTextSkipsWhitespace(s, i, |s|);
  }

  /** Every character of `s` is whitespace (so `trim()` leaves nothing). */
  ghost predicate Blank(s: string)
  {
    forall i :: 0 <= i < |s| ==> IsWhitespace(s[i])
  }

  /** `s.trim()` is empty exactly when `s` is all whitespace. */
  lemma TrimEmptyIff(s: string)
    ensures Trim(s) == "" <==> Blank(s)
  {
    var i := StartOfText(s, 0);
    StartOfTextSkipsWhitespace(s, 0);
    EndOfTextSkipsWhitespace(s, i, |s|);
  }

  /** A string that is already trimmed is left alone by `trim()`. */
  lemma TrimFixesTrimmed(s: string)
    requires IsTrimmed(s)
    ensures Trim(s) == s
  {
  }

  /** `trim()` never introduces a character that `s` does not contain. */
  lemma TrimKeepsAbsence(s: string, c: char)
    requires c !in s
    ensures c !in Trim(s)
  {
    var r := Trim(s);
    var i := StartOfText(s, 0);
    TrimIsStripped(s);
    assert i + |r| <= |s| && r == s[i..i + |r|];
    forall k | 0 <= k < |r|
      ensures r[k] != c
    {
      assert r[k] == s[i + k];
    }
  }

  /** `trim()` keeps every character of `s` that is not whitespace. */
  lemma TrimKeepsVisible(s: string, c: char)
    requires c in s && !IsWhitespace(c)
    ensures c in Trim(s)
  {
    var r := Trim(s);
    var i := StartOfText(s, 0);
    TrimIsStripped(s);
    var j :| 0 <= j < |s| && s[j] == c;
    assert i <= j < i + |r|;
    assert r[j - i] == c;
  }

  function LowerChar(c: char): char
  {
    if 'A' <= c <= 'Z' then (c as int + 32) as char else c
  }

  /** `s.toLowerCase()` on the ASCII letters. */
  function ToLower(s: string): string
  {
    seq(|s|, i requires 0 <= i < |s| => LowerChar(s[i]))
  }

  /** `s.includes(part)`. */
  function Contains(s: string, part: string): bool
    decreases |s|
  {
    if |part| <= |s| && s[..|part|] == part then true
    else if s == [] then false
    else Contains(s[1..], part)
  }

  /** `part` occurs in `s` at offset `i`. */
  ghost predicate OccursAt(s: string, part: string, i: int)
  {
    0 <= i <= |s| - |part| && s[i..i + |part|] == part
  }

  /** An occurrence in the tail of `s` is an occurrence in `s` one place later. */
  lemma OccursAtTail(s: string, part: string, j: nat)
    requires s != []
    ensures OccursAt(s[1..], part, j) <==> OccursAt(s, part, j + 1)
  {
    if j + 1 + |part| <= |s| {
      assert s[1..][j..j + |part|] == s[j + 1..j + 1 + |part|];
    }
  }

  /** `Contains` finds `part` exactly when it occurs at some offset of `s`. */
  lemma {:induction false} ContainsIff(s: string, part: string)
    ensures Contains(s, part) <==> exists i :: OccursAt(s, part, i)
    decreases |s|
  {
    if |part| <= |s| && s[..|part|] == part {
      assert OccursAt(s, part, 0);
    } else if s != [] {
      ContainsIff(s[1..], part);
      if Contains(s, part) {
        var j :| OccursAt(s[1..], part, j);
        OccursAtTail(s, part, j);
      }
      if exists i :: OccursAt(s, part, i) {
        var i :| OccursAt(s, part, i);
        assert i != 0;
        OccursAtTail(s, part, i - 1);
      }
    }
  }

  /** `s.slice(0, n)`. */
  function Prefix(s: string, n: nat): (r: string)
    ensures |r| == (if |s| <= n then |s| else n) && r <= s
  {
    if |s| <= n then s else s[..n]
  }

  /** `s.split(sep)` for a one-character separator. */
  function Split(s: string, sep: char): (parts: seq<string>)
    ensures |parts| >= 1
    ensures forall p :: p in parts ==> sep !in p
    decreases |s|
  {
    if s == [] then [[]]
    else
      var rest := Split(s[1..], sep);
      if s[0] == sep then [[]] + rest
      else
        assert sep !in rest[0];
        [[s[0]] + rest[0]] + rest[1..]
  }

  /** `parts.join(sep)`. */
  function Join(parts: seq<string>, sep: string): string
    decreases |parts|
  {
    if parts == [] then []
    else if |parts| == 1 then parts[0]
    else parts[0] + sep + Join(parts[1..], sep)
  }

  /** One step of `split`, for a string given as its first character and the rest. */
  lemma SplitCons(c: char, t: string, sep: char)
    ensures Split([c] + t, sep) == if c == sep then [[]] + Split(t, sep) else [[c] + Split(t, sep)[0]] + Split(t, sep)[1..]
  {
    assert ([c] + t)[0] == c && ([c] + t)[1..] == t;
  }

  /** One step of `join`, for a list given as its first part and the rest. */
  lemma JoinCons(p: string, ps: seq<string>, sep: string)
    ensures Join([p] + ps, sep) == if ps == [] then p else p + sep + Join(ps, sep)
  {
    assert ([p] + ps)[0] == p && ([p] + ps)[1..] == ps;
  }

  /** Splitting and joining again on the same separator gives back the string. */
  lemma {:induction false} JoinSplit(s: string, sep: char)
    ensures Join(Split(s, sep), [sep]) == s
    decreases |s|
  {
    if s != [] {
      var t := s[1..];
      assert s == [s[0]] + t;
      JoinSplit(t, sep);
      SplitCons(s[0], t, sep);
      var rest := Split(t, sep);
      if s[0] == sep {
        JoinCons([], rest, [sep]);
      } else {
        assert rest == [rest[0]] + rest[1..];
        JoinCons(rest[0], rest[1..], [sep]);
        JoinCons([s[0]] + rest[0], rest[1..], [sep]);
      }
    }
  }

  lemma {:induction false} SplitWithoutSeparator(p: string, sep: char)
    requires sep !in p
    ensures Split(p, sep) == [p]
    decreases |p|
  {
    if p != [] {
      SplitWithoutSeparator(p[1..], sep);
      assert [p[0]] + p[1..] == p;
    }
  }

  lemma {:induction false} SplitAtSeparator(p: string, sep: char, t: string)
    requires sep !in p
    ensures Split(p + [sep] + t, sep) == [p] + Split(t, sep)
    decreases |p|
  {
    var s := p + [sep] + t;
    if p == [] {
      assert s[1..] == t;
    } else {
      SplitAtSeparator(p[1..], sep, t);
      assert s[1..] == p[1..] + [sep] + t;
      assert [p[0]] + p[1..] == p;
    }
  }

  /** Each part occurs in the joined string. */
  lemma {:induction false} JoinHasPart(parts: seq<string>, sep: string, k: nat)
    requires k < |parts|
    ensures exists i :: OccursAt(Join(parts, sep), parts[k], i)
    decreases k
  {
    var j := Join(parts, sep);
    if k == 0 {
      assert j[0..|parts[0]|] == parts[0];
      assert OccursAt(j, parts[0], 0);
    } else {
      JoinHasPart(parts[1..], sep, k - 1);
      var rest := Join(parts[1..], sep);
      var i :| OccursAt(rest, parts[1..][k - 1], i);
      var off := |parts[0]| + |sep|;
      assert j == parts[0] + sep + rest;
      assert j[off + i..off + i + |parts[k]|] == rest[i..i + |parts[k]|];
      assert OccursAt(j, parts[k], off + i);
    }
  }

  /** Joining separator-free parts and splitting again gives back the parts. */
  lemma {:induction false} SplitJoin(parts: seq<string>, sep: char)
    requires |parts| >= 1
    requires forall p :: p in parts ==> sep !in p
    ensures Split(Join(parts, [sep]), sep) == parts
    decreases |parts|
  {
    if |parts| == 1 {
      SplitWithoutSeparator(parts[0], sep);
    } else {
      SplitJoin(parts[1..], sep);
      SplitAtSeparator(parts[0], sep, Join(parts[1..], [sep]));
      assert [parts[0]] + parts[1..] == parts;
    }
  }

  predicate Distinct<T(==)>(s: seq<T>)
  {
    forall i, j :: 0 <= i < j < |s| ==> s[i] != s[j]
  }

  /** Position of the first occurrence of `x` in `xs`. */
  function IndexOf<T(==)>(xs: seq<T>, x: T): (k: nat)
    requires x in xs
    ensures k < |xs| && xs[k] == x
    ensures forall i :: 0 <= i < k ==> xs[i] != x
  {
    if xs[0] == x then 0 else 1 + IndexOf(xs[1..], x)
  }

  /**
   * `Array.from(new Set(xs))`: each value once, at the place of its first
   * occurrence.
   */
  function Dedup<T(==,!new)>(xs: seq<T>): (r: seq<T>)
    ensures Distinct(r)
    ensures forall x :: x in r <==> x in xs
    decreases |xs|
  {
    if xs == [] then []
    else
      var init := xs[..|xs| - 1];
      var d := Dedup(init);
      assert xs == init + [xs[|xs| - 1]];
      if xs[|xs| - 1] in d then d else d + [xs[|xs| - 1]]
  }

  /** `Dedup` lists the values in the order of their first occurrence in `xs`. */
  lemma {:induction false} DedupKeepsFirstOccurrenceOrder<T(!new)>(xs: seq<T>)
    ensures forall i, j :: 0 <= i < j < |Dedup(xs)| ==> IndexOf(xs, Dedup(xs)[i]) < IndexOf(xs, Dedup(xs)[j])
    decreases |xs|
  {
    if xs != [] {
      var init := xs[..|xs| - 1];
      var last := xs[|xs| - 1];
      DedupKeepsFirstOccurrenceOrder(init);
      var d := Dedup(init);
      var r := Dedup(xs);
      assert xs == init + [last];
      assert r == if last in d then d else d + [last];
      forall y | y in init
        ensures IndexOf(xs, y) == IndexOf(init, y)
      {
        var a, b := IndexOf(xs, y), IndexOf(init, y);
        assert xs[b] == y;
        assert a <= b;
        assert init[a] == y;
      }
      forall i, j | 0 <= i < j < |r|
        ensures IndexOf(xs, r[i]) < IndexOf(xs, r[j])
      {
        assert r[i] == d[i] && d[i] in init;
        if j < |d| {
          assert r[j] == d[j] && d[j] in init;
        } else {
          assert r[j] == last && last !in init;
          assert IndexOf(xs, last) == |xs| - 1;
        }
      }
    }
  }

  /** A list without repeats is left as it is. */
  lemma {:induction false} DedupOfDistinct<T(!new)>(xs: seq<T>)
    requires Distinct(xs)
    ensures Dedup(xs) == xs
    decreases |xs|
  {
    if xs != [] {
      var init := xs[..|xs| - 1];
      DedupOfDistinct(init);
      assert xs == init + [xs[|xs| - 1]];
    }
  }

  /** `texts.filter(Boolean)`: the non-empty strings, in order. */
  function NonEmpty(texts: seq<string>): (r: seq<string>)
    ensures forall t :: t in r <==> t != "" && t in texts
    decreases |texts|
  {
    if texts == [] then []
    else
      assert texts == [texts[0]] + texts[1..];
      (if texts[0] != "" then [texts[0]] else []) + NonEmpty(texts[1..])
  }

  /** Filtering a list with no empty strings keeps it whole. */
  lemma {:induction false} NonEmptyKeepsNonEmpty(texts: seq<string>)
    requires forall t :: t in texts ==> t != ""
    ensures NonEmpty(texts) == texts
    decreases |texts|
  {
    if texts != [] {
      assert texts[0] in texts;
      assert forall t :: t in texts[1..] ==> t in texts;
      NonEmptyKeepsNonEmpty(texts[1..]);
    }
  }

  /** `filter(Boolean)` works element by element, so it keeps the order of what it keeps. */
  lemma {:induction false} NonEmptyAppend(a: seq<string>, b: seq<string>)
    ensures NonEmpty(a + b) == NonEmpty(a) + NonEmpty(b)
    decreases |a|
  {
    if a == [] {
      assert a + b == b;
    } else {
      var ab := a + b;
      assert ab[0] == a[0] && ab[1..] == a[1..] + b;
      NonEmptyAppend(a[1..], b);
      var head := if a[0] != "" then [a[0]] else [];
      calc {
        NonEmpty(ab);
        head + NonEmpty(a[1..] + b);
        head + (NonEmpty(a[1..]) + NonEmpty(b));
        (head + NonEmpty(a[1..])) + NonEmpty(b);
      }
    }
  }

  /** A lone string survives `filter(Boolean)` exactly when it is non-empty. */
  lemma NonEmptyOne(t: string)
    ensures NonEmpty([t]) == if t != "" then [t] else []
  {
    assert [t][1..] == [];
  }

  /**
   * Two non-empty strings come first-occurrence in the same order before and
   * after `filter(Boolean)`.
   */
  lemma {:induction false} NonEmptyKeepsIndexOrder(texts: seq<string>, x: string, y: string)
    requires x != "" && y != "" && x in texts && y in texts
    ensures x in NonEmpty(texts) && y in NonEmpty(texts)
    ensures IndexOf(NonEmpty(texts), x) < IndexOf(NonEmpty(texts), y) <==> IndexOf(texts, x) < IndexOf(texts, y)
    decreases |texts|
  {
    var rest := texts[1..];
    var ne := NonEmpty(texts);
    if texts[0] != x && texts[0] != y {
      assert x in rest && y in rest;
      NonEmptyKeepsIndexOrder(rest, x, y);
      if texts[0] != "" {
        assert ne == [texts[0]] + NonEmpty(rest);
        assert ne[1..] == NonEmpty(rest);
      } else {
        assert ne == NonEmpty(rest);
      }
    } else {
      assert ne == [texts[0]] + NonEmpty(rest);
    }
  }
}

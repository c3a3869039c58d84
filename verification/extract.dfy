/**
 * `extractText`, `normalizeHtml` and `extractCleanHtml`: plain text of an
 * element (whitespace collapsed) and its cleaned inner HTML (auxiliary
 * sub-elements removed).
 */
module Extract {
  import opened Wrappers
  import opened Text
  import opened Dom

  const Newlines: set<char> := {'\n'}
  const Blanks: set<char> := {' ', '\t'}

  /** Length of the run of characters of `cs` that `s` starts with. */
  function Leading(s: string, cs: set<char>): (k: nat)
    ensures k <= |s|
    ensures forall i :: 0 <= i < k ==> s[i] in cs
    ensures k < |s| ==> s[k] !in cs
    decreases |s|
  {
    if s != [] && s[0] in cs then 1 + Leading(s[1..], cs) else 0
  }

  /** No run of `m` or more characters of `cs` starts anywhere in `s`. */
  ghost predicate NoRun(s: string, cs: set<char>, m: nat)
  {
    forall i :: 0 <= i < |s| ==> Leading(s[i..], cs) < m
  }

  /**
   * `s.replace(/[cs]{m,}/g, repl)`: the global match starts at the first
   * character of each maximal run and is greedy, so every maximal run of at
   * least `m` characters of `cs` becomes `repl` and shorter runs stay.
   */
  function CollapseRuns(s: string, cs: set<char>, m: nat, repl: string): string
    decreases |s|
  {
    if s == [] then []
    else if s[0] in cs then
      var k := Leading(s, cs);
      (if k >= m then repl else s[..k]) + CollapseRuns(s[k..], cs, m, repl)
    else [s[0]] + CollapseRuns(s[1..], cs, m, repl)
  }

  lemma {:induction false} LeadingAppend(a: string, b: string, cs: set<char>)
    requires forall i :: 0 <= i < |a| ==> a[i] in cs
    ensures Leading(a + b, cs) == |a| + Leading(b, cs)
    decreases |a|
  {
    if a != [] {
      LeadingAppend(a[1..], b, cs);
      assert (a + b)[0] == a[0] && a[0] in cs;
      assert (a + b)[1..] == a[1..] + b;
      assert Leading(a + b, cs) == 1 + Leading((a + b)[1..], cs);
      assert Leading(a[1..] + b, cs) == |a[1..]| + Leading(b, cs);
    } else {
      assert a + b == b;
    }
  }

  lemma {:induction false} LeadingOfPrefix(a: string, b: string, cs: set<char>)
    requires |a| <= |b| && a == b[..|a|]
    ensures Leading(a, cs) <= Leading(b, cs)
    decreases |a|
  {
    if a != [] && a[0] in cs {
      LeadingOfPrefix(a[1..], b[1..], cs);
    }
  }

  lemma {:induction false} LeadingAtLeast(s: string, cs: set<char>, m: nat)
    requires m <= |s|
    ensures (forall i :: 0 <= i < m ==> s[i] in cs) ==> Leading(s, cs) >= m
    decreases m
  {
    if m > 0 {
      LeadingAtLeast(s[1..], cs, m - 1);
      assert forall i :: 0 <= i < m - 1 ==> s[1..][i] == s[i + 1];
    }
  }

  lemma NoRunSuffix(s: string, cs: set<char>, m: nat, k: nat)
    requires NoRun(s, cs, m) && k <= |s|
    ensures NoRun(s[k..], cs, m)
  {
    forall i | 0 <= i < |s[k..]|
      ensures Leading(s[k..][i..], cs) < m
    {
      assert s[k..][i..] == s[k + i..];
    }
  }

  /** The collapsed string starts with the same kind of character as `s`. */
  lemma CollapseRunsHead(s: string, cs: set<char>, m: nat, repl: string)
    requires s != [] && s[0] !in cs
    ensures CollapseRuns(s, cs, m, repl) == [s[0]] + CollapseRuns(s[1..], cs, m, repl)
  {
  }

  /** A short block of `cs` in front of text that starts elsewhere and has no run forms no run. */
  lemma BlockKeepsNoRun(block: string, rest: string, cs: set<char>, m: nat)
    requires |block| < m && forall i :: 0 <= i < |block| ==> block[i] in cs
    requires NoRun(rest, cs, m) && Leading(rest, cs) == 0
    ensures NoRun(block + rest, cs, m)
  {
    var r := block + rest;
    forall i | 0 <= i < |r|
      ensures Leading(r[i..], cs) < m
    {
      if i < |block| {
        assert r[i..] == block[i..] + rest;
        LeadingAppend(block[i..], rest, cs);
      } else {
        assert r[i..] == rest[i - |block|..];
      }
    }
  }

  /** A character outside `cs` in front of text without a run forms no run. */
  lemma ConsKeepsNoRun(c: char, rest: string, cs: set<char>, m: nat)
    requires c !in cs && m > 0 && NoRun(rest, cs, m)
    ensures NoRun([c] + rest, cs, m)
  {
    var r := [c] + rest;
    forall i | 0 <= i < |r|
      ensures Leading(r[i..], cs) < m
    {
      if i > 0 {
        assert r[i..] == rest[i - 1..];
      }
    }
  }

  /**
   * After the replacement no run of `m` characters of `cs` is left, provided
   * the replacement itself is a shorter such run.
   */
  lemma {:induction false} CollapseRunsLeavesNoRun(s: string, cs: set<char>, m: nat, repl: string)
    requires 0 < |repl| < m
    requires forall i :: 0 <= i < |repl| ==> repl[i] in cs
    ensures NoRun(CollapseRuns(s, cs, m, repl), cs, m)
    decreases |s|
  {
    if s != [] {
      if s[0] in cs {
        var k := Leading(s, cs);
        CollapseRunsLeavesNoRun(s[k..], cs, m, repl);
        if s[k..] != [] {
          CollapseRunsHead(s[k..], cs, m, repl);
        }
        var block := if k >= m then repl else s[..k];
        BlockKeepsNoRun(block, CollapseRuns(s[k..], cs, m, repl), cs, m);
      } else {
        CollapseRunsLeavesNoRun(s[1..], cs, m, repl);
        ConsKeepsNoRun(s[0], CollapseRuns(s[1..], cs, m, repl), cs, m);
      }
    }
  }

  /** Collapsing runs of `cs` does not change how `s` starts with characters of `other`. */
  lemma {:induction false} CollapseRunsKeepsLeading(s: string, cs: set<char>, m: nat, repl: string, other: set<char>)
    requires cs !! other && repl != [] && repl[0] !in other
    ensures Leading(CollapseRuns(s, cs, m, repl), other) == Leading(s, other)
    decreases |s|
  {
    if s != [] && s[0] !in cs {
      CollapseRunsKeepsLeading(s[1..], cs, m, repl, other);
    }
  }

  /** Collapsing runs of `cs` cannot create a run of another character class. */
  lemma {:induction false} CollapseRunsKeepsNoRun(s: string, cs: set<char>, m: nat, repl: string, other: set<char>, n: nat)
    requires cs !! other && repl != [] && forall i :: 0 <= i < |repl| ==> repl[i] !in other
    requires n > 0 && NoRun(s, other, n)
    ensures NoRun(CollapseRuns(s, cs, m, repl), other, n)
    decreases |s|
  {
    if s != [] {
      var r := CollapseRuns(s, cs, m, repl);
      if s[0] in cs {
        var k := Leading(s, cs);
        var block := if k >= m then repl else s[..k];
        var rest := CollapseRuns(s[k..], cs, m, repl);
        NoRunSuffix(s, other, n, k);
        CollapseRunsKeepsNoRun(s[k..], cs, m, repl, other, n);
        assert r == block + rest;
        forall i | 0 <= i < |r|
          ensures Leading(r[i..], other) < n
        {
          if i < |block| {
            if k >= m {
              assert block[i] == repl[i];
            } else {
              assert block[i] == s[i] && s[i] in cs;
            }
            assert block[i] !in other;
            assert r[i..] != [] && r[i..][0] == block[i];
            assert Leading(r[i..], other) == 0;
          } else {
            assert r[i..] == rest[i - |block|..];
          }
        }
      } else {
        var rest := CollapseRuns(s[1..], cs, m, repl);
        NoRunSuffix(s, other, n, 1);
        CollapseRunsKeepsNoRun(s[1..], cs, m, repl, other, n);
        CollapseRunsKeepsLeading(s, cs, m, repl, other);
        forall i | 0 <= i < |r|
          ensures Leading(r[i..], other) < n
        {
          if i > 0 {
            assert r[i..] == rest[i - 1..];
          } else {
            assert s[0..] == s && r[0..] == r;
          }
        }
      }
    }
  }

  /** A run of `cs` stops where a character outside `cs` follows it. */
  lemma {:induction false} LeadingBeforeStop(a: string, t: string, cs: set<char>)
    requires t == [] || t[0] !in cs
    ensures Leading(a + t, cs) == Leading(a, cs)
    decreases |a|
  {
    if a == [] {
      assert a + t == t;
    } else if a[0] in cs {
      assert (a + t)[1..] == a[1..] + t;
      LeadingBeforeStop(a[1..], t, cs);
    }
  }

  /**
   * The replacement can be split wherever a run of `cs` cannot continue: the
   * two sides are collapsed independently.
   */
  lemma {:induction false} CollapseRunsAppend(a: string, t: string, cs: set<char>, m: nat, repl: string)
    requires t == [] || t[0] !in cs
    ensures CollapseRuns(a + t, cs, m, repl) == CollapseRuns(a, cs, m, repl) + CollapseRuns(t, cs, m, repl)
    decreases |a|
  {
    var s := a + t;
    if a == [] {
      assert s == t;
    } else if a[0] !in cs {
      assert s[0] == a[0] && s[1..] == a[1..] + t;
      CollapseRunsAppend(a[1..], t, cs, m, repl);
      assert CollapseRuns(s, cs, m, repl) == [a[0]] + CollapseRuns(a[1..] + t, cs, m, repl);
      assert CollapseRuns(a, cs, m, repl) == [a[0]] + CollapseRuns(a[1..], cs, m, repl);
    } else {
      var k := Leading(a, cs);
      assert a == a[..k] + a[k..];
      CollapseRunsAppend(a[k..], t, cs, m, repl);
      CollapseRunsAppendAfterRun(a[..k], a[k..], t, cs, m, repl);
    }
  }

  /** The step of `CollapseRunsAppend` past a leading run of `cs`. */
  lemma CollapseRunsAppendAfterRun(run: string, rest: string, t: string, cs: set<char>, m: nat, repl: string)
    requires run != [] && forall i :: 0 <= i < |run| ==> run[i] in cs
    requires rest == [] || rest[0] !in cs
    requires t == [] || t[0] !in cs
    requires CollapseRuns(rest + t, cs, m, repl) == CollapseRuns(rest, cs, m, repl) + CollapseRuns(t, cs, m, repl)
    ensures CollapseRuns(run + rest + t, cs, m, repl) == CollapseRuns(run + rest, cs, m, repl) + CollapseRuns(t, cs, m, repl)
  {
    var block := if |run| >= m then repl else run;
    assert rest + t == [] || (rest + t)[0] !in cs;
    CollapseRunsOfRun(run, rest + t, cs, m, repl);
    CollapseRunsOfRun(run, rest, cs, m, repl);
    PrefixedAppend(s => CollapseRuns(s, cs, m, repl), run, rest, t, block);
  }

  /**
   * The associativity step of `CollapseRunsAppendAfterRun`, stated for any
   * map `f` so that the solver does not unfold the replacement itself.
   */
  lemma PrefixedAppend(f: string -> string, run: string, rest: string, t: string, block: string)
    requires f(run + (rest + t)) == block + f(rest + t)
    requires f(run + rest) == block + f(rest)
    requires f(rest + t) == f(rest) + f(t)
    ensures f(run + rest + t) == f(run + rest) + f(t)
  {
    assert run + rest + t == run + (rest + t);
  }

  /**
   * A character outside `cs` separates the replacement: what comes before it
   * and what comes after it are collapsed independently, and it stays.
   */
  lemma CollapseRunsAround(a: string, c: char, b: string, cs: set<char>, m: nat, repl: string)
    requires c !in cs
    ensures CollapseRuns(a + [c] + b, cs, m, repl) == CollapseRuns(a, cs, m, repl) + [c] + CollapseRuns(b, cs, m, repl)
  {
    var t := [c] + b;
    assert a + [c] + b == a + t && t[1..] == b;
    CollapseRunsAppend(a, t, cs, m, repl);
    CollapseRunsHead(t, cs, m, repl);
  }

  /**
   * A maximal run of characters of `cs` becomes `repl` when it is at least
   * `m` long and stays as it is otherwise.
   */
  lemma CollapseRunsOfRun(run: string, rest: string, cs: set<char>, m: nat, repl: string)
    requires run != [] && forall i :: 0 <= i < |run| ==> run[i] in cs
    requires rest == [] || rest[0] !in cs
    ensures CollapseRuns(run + rest, cs, m, repl) == (if |run| >= m then repl else run) + CollapseRuns(rest, cs, m, repl)
  {
    var s := run + rest;
    LeadingAppend(run, rest, cs);
    assert s[0] == run[0];
    assert s[..|run|] == run && s[|run|..] == rest;
  }

  /** Characters outside `cs` survive the replacement. */
  lemma CollapseRunsKeepsChar(s: string, c: char, cs: set<char>, m: nat, repl: string)
    requires c in s && c !in cs
    ensures c in CollapseRuns(s, cs, m, repl)
  {
    var j :| 0 <= j < |s| && s[j] == c;
    assert s == s[..j] + [c] + s[j + 1..];
    CollapseRunsAround(s[..j], c, s[j + 1..], cs, m, repl);
  }

  /** A string without long runs is left unchanged by the replacement. */
  lemma {:induction false} CollapseRunsFixesNoRun(s: string, cs: set<char>, m: nat, repl: string)
    requires NoRun(s, cs, m)
    ensures CollapseRuns(s, cs, m, repl) == s
    decreases |s|
  {
    if s != [] {
      if s[0] in cs {
        var k := Leading(s, cs);
        assert s[0..] == s;
        assert k < m;
        NoRunSuffix(s, cs, m, k);
        CollapseRunsFixesNoRun(s[k..], cs, m, repl);
        assert s[..k] + s[k..] == s;
        CollapseRunsOfRun(s[..k], s[k..], cs, m, repl);
      } else {
        NoRunSuffix(s, cs, m, 1);
        CollapseRunsFixesNoRun(s[1..], cs, m, repl);
        assert [s[0]] + s[1..] == s;
      }
    }
  }

  lemma SliceKeepsNoRun(s: string, a: nat, b: nat, cs: set<char>, m: nat)
    requires a <= b <= |s| && NoRun(s, cs, m)
    ensures NoRun(s[a..b], cs, m)
  {
    var r := s[a..b];
    forall j | 0 <= j < |r|
      ensures Leading(r[j..], cs) < m
    {
      var t := s[a + j..];
      assert r[j..] == t[..|r| - j];
      LeadingOfPrefix(r[j..], t, cs);
    }
  }

  lemma StrippedKeepsNoRun(s: string, i: nat, r: string, cs: set<char>, m: nat)
    requires NoRun(s, cs, m) && StrippedAt(s, i, r)
    ensures NoRun(r, cs, m)
  {
    assert i + |r| <= |s| && r == s[i..i + |r|];
    SliceKeepsNoRun(s, i, i + |r|, cs, m);
  }

  /** `trim()` keeps a slice of its input, so it cannot create a run. */
  lemma TrimKeepsNoRun(s: string, cs: set<char>, m: nat)
    requires NoRun(s, cs, m)
    ensures NoRun(Trim(s), cs, m)
  {
    TrimIsStripped(s);
    StrippedKeepsNoRun(s, StartOfText(s, 0), Trim(s), cs, m);
  }

  /**
   * The text pipeline of `extractText`: trim, three or more newlines become a
   * blank line, runs of spaces and tabs become one space, trim again.
   */
  function NormalizeText(text: string): string
  {
    Trim(CollapseRuns(CollapseRuns(Trim(text), Newlines, 3, "\n\n"), Blanks, 2, " "))
  }

  /**
   * Normalised text has no whitespace at either end, no run of three or more
   * newlines and no run of two or more spaces and tabs.
   */
  lemma NormalizeTextIsClean(text: string)
    ensures IsTrimmed(NormalizeText(text))
    ensures NoRun(NormalizeText(text), Newlines, 3) && NoRun(NormalizeText(text), Blanks, 2)
  {
    var t := Trim(text);
    var a := CollapseRuns(t, Newlines, 3, "\n\n");
    var b := CollapseRuns(a, Blanks, 2, " ");
    CollapseRunsLeavesNoRun(t, Newlines, 3, "\n\n");
    CollapseRunsKeepsNoRun(a, Blanks, 2, " ", Newlines, 3);
    CollapseRunsLeavesNoRun(a, Blanks, 2, " ");
    TrimKeepsNoRun(b, Newlines, 3);
    TrimKeepsNoRun(b, Blanks, 2);
  }

  /** Normalising normalised text changes nothing. */
  lemma NormalizeTextIdempotent(text: string)
    ensures NormalizeText(NormalizeText(text)) == NormalizeText(text)
  {
    var r := NormalizeText(text);
    NormalizeTextIsClean(text);
    TrimFixesTrimmed(r);
    CollapseRunsFixesNoRun(r, Newlines, 3, "\n\n");
    CollapseRunsFixesNoRun(r, Blanks, 2, " ");
  }

  /** Every character of the text that is not whitespace is still in the normalised text. */
  lemma NormalizeTextKeepsVisible(text: string, c: char)
    requires c in text && !IsWhitespace(c)
    ensures c in NormalizeText(text)
  {
    var t := Trim(text);
    var a := CollapseRuns(t, Newlines, 3, "\n\n");
    var b := CollapseRuns(a, Blanks, 2, " ");
    TrimKeepsVisible(text, c);
    CollapseRunsKeepsChar(t, c, Newlines, 3, "\n\n");
    CollapseRunsKeepsChar(a, c, Blanks, 2, " ");
    TrimKeepsVisible(b, c);
  }

  /** Normalised text is empty exactly when the text is all whitespace. */
  lemma NormalizeTextEmptyIff(text: string)
    ensures NormalizeText(text) == "" <==> Blank(text)
  {
    TrimEmptyIff(text);
    if !Blank(text) {
      var j :| 0 <= j < |text| && !IsWhitespace(text[j]);
      NormalizeTextKeepsVisible(text, text[j]);
    }
  }

  /** Three newlines in a row start at position `i` of `r`. */
  ghost predicate NewlineTripleAt(r: string, i: int)
  {
    0 <= i < |r| - 2 && r[i] == '\n' && r[i + 1] == '\n' && r[i + 2] == '\n'
  }

  /** Two spaces or tabs in a row start at position `i` of `r`. */
  ghost predicate BlankPairAt(r: string, i: int)
  {
    0 <= i < |r| - 1 && r[i] in Blanks && r[i + 1] in Blanks
  }

  /** Without a run of three newlines, no three consecutive characters are all newlines. */
  lemma NoRunOfNewlines(r: string)
    requires NoRun(r, Newlines, 3)
    ensures forall i :: !NewlineTripleAt(r, i)
  {
    forall i | 0 <= i < |r| - 2
      ensures !NewlineTripleAt(r, i)
    {
      LeadingAtLeast(r[i..], Newlines, 3);
      assert r[i..][0] == r[i] && r[i..][1] == r[i + 1] && r[i..][2] == r[i + 2];
    }
  }

  /** Without a run of two blanks, no two adjacent characters are both blanks. */
  lemma NoRunOfBlanks(r: string)
    requires NoRun(r, Blanks, 2)
    ensures forall i :: !BlankPairAt(r, i)
  {
    forall i | 0 <= i < |r| - 1
      ensures !BlankPairAt(r, i)
    {
      LeadingAtLeast(r[i..], Blanks, 2);
      assert r[i..][0] == r[i] && r[i..][1] == r[i + 1];
    }
  }

  /** `extractText(el)`: "" for null, otherwise the element's normalised text. */
  function ExtractText(el: Option<Node>): string
  {
    if el.None? then "" else NormalizeText(el.value.innerText)
  }

  /**
   * What `extractText` guarantees: "" for null; otherwise no whitespace at the
   * ends, no three newlines in a row and no two adjacent spaces or tabs.
   */
  lemma ExtractTextIsClean(el: Option<Node>)
    ensures el.None? ==> ExtractText(el) == ""
    ensures IsTrimmed(ExtractText(el))
    ensures forall i :: !NewlineTripleAt(ExtractText(el), i)
    ensures forall i :: !BlankPairAt(ExtractText(el), i)
  {
    if el.Some? {
      NormalizeTextIsClean(el.value.innerText);
      NoRunOfNewlines(ExtractText(el));
      NoRunOfBlanks(ExtractText(el));
    }
  }

  /** `extractText` is "" exactly for null or an element whose text is all whitespace. */
  lemma ExtractTextEmptyIff(el: Option<Node>)
    ensures ExtractText(el) == "" <==> el.None? || Blank(el.value.innerText)
  {
    if el.Some? {
      NormalizeTextEmptyIff(el.value.innerText);
    }
  }

  /**
   * `normalizeHtml(html)`: `String(html || "").trim()`. A present value comes
   * back with the whitespace at both ends stripped, and empty exactly when it
   * is all whitespace.
   */
  function NormalizeHtml(html: Option<string>): (r: string)
    ensures IsTrimmed(r)
    ensures html.None? ==> r == ""
    ensures html.Some? ==> StrippedAt(html.value, StartOfText(html.value, 0), r)
    ensures r == "" <==> html.None? || Blank(html.value)
  {
    var s := if html.Some? then html.value else "";
    TrimIsStripped(s);
    TrimEmptyIff(s);
    Trim(s)
  }

  /**
   * The fragments that survive removing every descendant matched by one of
   * `removed`, in their original order.
   */
  function Kept(frags: seq<Fragment>, removed: set<Selector>): (r: seq<Fragment>)
    ensures |r| <= |frags|
    ensures forall f :: f in r ==> f in frags && f.enclosedBy !! removed
    ensures forall f :: f in frags && f.enclosedBy !! removed ==> f in r
    decreases |frags|
  {
    if frags == [] then []
    else if frags[0].enclosedBy !! removed then [frags[0]] + Kept(frags[1..], removed)
    else Kept(frags[1..], removed)
  }

  /**
   * `extractCleanHtml(el, {removeSelectors})`: "" for null; otherwise the
   * trimmed inner HTML of a copy of `el` from which every descendant matched by
   * a remove selector is gone.
   */
  function ExtractCleanHtml(el: Option<Node>, removeSelectors: seq<Selector>): (r: string)
    ensures el.None? ==> r == ""
    ensures IsTrimmed(r)
    ensures el.Some? ==>
              var kept := KeptMarkup(el.value, removeSelectors);
              && StrippedAt(kept, StartOfText(kept, 0), r)
              && (r == "" <==> Blank(kept))
  {
    if el.None? then ""
    else NormalizeHtml(Some(KeptMarkup(el.value, removeSelectors)))
  }

  /** The markup left in a copy of `el` once the descendants matched by `removeSelectors` are gone. */
  function KeptMarkup(el: Node, removeSelectors: seq<Selector>): string
  {
    Markup(Kept(el.html, set s | s in removeSelectors))
  }

  /**
   * Removal works fragment by fragment: the kept fragments of consecutive
   * pieces are those of each piece, in the same order.
   */
  lemma {:induction false} KeptAppend(a: seq<Fragment>, b: seq<Fragment>, removed: set<Selector>)
    ensures Kept(a + b, removed) == Kept(a, removed) + Kept(b, removed)
    decreases |a|
  {
    if a == [] {
      assert a + b == b;
    } else {
      var ab := a + b;
      assert ab[0] == a[0] && ab[1..] == a[1..] + b;
      KeptAppend(a[1..], b, removed);
      if a[0].enclosedBy !! removed {
        calc {
          Kept(ab, removed);
          [a[0]] + Kept(a[1..] + b, removed);
          [a[0]] + (Kept(a[1..], removed) + Kept(b, removed));
          ([a[0]] + Kept(a[1..], removed)) + Kept(b, removed);
        }
      }
    }
  }

  /** A lone fragment is kept exactly when no removed descendant encloses it. */
  lemma KeptOne(f: Fragment, removed: set<Selector>)
    ensures Kept([f], removed) == if f.enclosedBy !! removed then [f] else []
  {
    assert [f][1..] == [];
  }

  lemma {:induction false} KeptUntouched(frags: seq<Fragment>, removed: set<Selector>)
    requires forall f :: f in frags ==> f.enclosedBy !! removed
    ensures Kept(frags, removed) == frags
    decreases |frags|
  {
    if frags != [] {
      KeptUntouched(frags[1..], removed);
    }
  }

  /**
   * When no remove selector matches inside `el`, the cleaned HTML is the
   * trimmed inner HTML.
   */
  lemma CleanHtmlOfUntouched(el: Node, removeSelectors: seq<Selector>)
    requires forall f :: f in el.html ==> forall s :: s in removeSelectors ==> s !in f.enclosedBy
    ensures ExtractCleanHtml(Some(el), removeSelectors) == NormalizeHtml(Some(InnerHtml(el)))
  {
    KeptUntouched(el.html, set s | s in removeSelectors);
  }
}

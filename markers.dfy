/**
 * The product-reference markers the language model is asked to append to
 * product names, and how the global regular expression
 * `/\s?\(product[_ ]id:\s*(?<product_id>\d+)\)/g` finds them with
 * `String.prototype.matchAll`.
 */
module Markers {
  import opened Wrappers
  import opened JsText

  /**
   * One match: the text `s[start..end]`, whose `product_id` group is
   * `s[digitsStart..digitsEnd]` and parses to `id`.
   */
  datatype Match = Match(start: nat, end: nat, digitsStart: nat, digitsEnd: nat, id: nat)

  /** The end of the run of `\s` characters that starts at `i`. */
  function SkipSpaces(s: string, i: nat): (j: nat)
    requires i <= |s|
    ensures i <= j <= |s| && AllSpaces(s[i..j]) && (j == |s| || !IsSpace(s[j]))
    decreases |s| - i
  {
    if i < |s| && IsSpace(s[i]) then SkipSpaces(s, i + 1) else i
  }

  /** The end of the run of `\d` characters that starts at `i`. */
  function SkipDigits(s: string, i: nat): (j: nat)
    requires i <= |s|
    ensures i <= j <= |s| && AllDigits(s[i..j]) && (j == |s| || !IsDigit(s[j]))
    decreases |s| - i
  {
    if i < |s| && IsDigit(s[i]) then SkipDigits(s, i + 1) else i
  }

  /**
   * `\(product[_ ]id:\s*(\d+)\)` tried at position `j`. Greedy `\s*` and
   * `\d+` never need to give characters back here: a digit is not white
   * space and `)` is not a digit.
   */
  function CoreAt(s: string, j: nat): (r: Option<Match>)
    ensures r.Some? ==> r.value.start == j && j + 14 <= r.value.end <= |s|
    ensures r.Some? ==> j + 12 <= r.value.digitsStart < r.value.digitsEnd == r.value.end - 1
  {
    if j + 12 <= |s| && s[j..j + 8] == "(product" && (s[j + 8] == '_' || s[j + 8] == ' ') && s[j + 9..j + 12] == "id:" then
      var ds := SkipSpaces(s, j + 12);
      var de := SkipDigits(s, ds);
      if ds < de < |s| && s[de] == ')' then Some(Match(j, de + 1, ds, de, ParseDigits(s[ds..de]))) else None
    else None
  }

  /** The whole pattern tried at position `i`: `\s?` first takes one white-space character, then gives it back. */
  function MatchAt(s: string, i: nat): (r: Option<Match>)
    ensures r.Some? ==> r.value.start == i && i + 14 <= r.value.end <= |s|
  {
    if i < |s| && IsSpace(s[i]) then
      match CoreAt(s, i + 1)
      case Some(m) => Some(m.(start := i))
      case None => CoreAt(s, i)
    else CoreAt(s, i)
  }

  /** `s.matchAll(pattern)` from position `from`: leftmost match first, the next search starting where it ended. */
  function FindMatches(s: string, from: nat): (ms: seq<Match>)
    ensures forall k :: 0 <= k < |ms| ==> from <= ms[k].start < ms[k].end <= |s|
    decreases |s| - from
  {
    if from >= |s| then []
    else
      match MatchAt(s, from)
      case Some(m) =>
        [m] + FindMatches(s, m.end)
      case None => FindMatches(s, from + 1)
  }

  /** `s[ds..de]` is a whole `\d+` group: digits, not preceded by a digit, and followed by `)`. */
  predicate IsDigitGroup(s: string, ds: nat, de: nat) {
    0 < ds < de < |s| && !IsDigit(s[ds - 1]) && AllDigits(s[ds..de]) && s[de] == ')'
  }

  /** The recorded ids: `parseInt` of each match's group, in match order. */
  function RecordedIds(s: string): (ids: seq<nat>)
    ensures |ids| == |FindMatches(s, 0)|
    ensures forall k :: 0 <= k < |ids| ==> ids[k] == FindMatches(s, 0)[k].id
    ensures forall k :: 0 <= k < |ids| ==>
              var m := FindMatches(s, 0)[k];
              && m.start + 12 <= m.digitsStart && m.digitsEnd == m.end - 1 && IsDigitGroup(s, m.digitsStart, m.digitsEnd)
              && ids[k] == ParseDigits(s[m.digitsStart..m.digitsEnd])
  {
    var ms := FindMatches(s, 0);
    forall k | 0 <= k < |ms|
      ensures ms[k].start + 12 <= ms[k].digitsStart && ms[k].digitsEnd == ms[k].end - 1
      ensures IsDigitGroup(s, ms[k].digitsStart, ms[k].digitsEnd)
      ensures ms[k].id == ParseDigits(s[ms[k].digitsStart..ms[k].digitsEnd])
    {
      FindMatchesAt(s, 0, k);
      MatchDigitGroup(s, ms[k]);
    }
    seq(|ms|, k requires 0 <= k < |ms| => ms[k].id)
  }

  /** A match the pattern finds carries its whole digit group and that group's value. */
  lemma MatchDigitGroup(s: string, m: Match)
    requires MatchAt(s, m.start) == Some(m)
    ensures m.start + 12 <= m.digitsStart && m.digitsEnd == m.end - 1
    ensures IsDigitGroup(s, m.digitsStart, m.digitsEnd)
    ensures m.id == ParseDigits(s[m.digitsStart..m.digitsEnd])
  {
    MatchAtSound(s, m.start);
  }

  /** The matched texts `match[0]`, in match order: each is a marker and lies where its match says. */
  function MatchedTexts(s: string): (ts: seq<string>)
    ensures |ts| == |FindMatches(s, 0)|
    ensures forall k :: 0 <= k < |ts| ==>
              FindMatches(s, 0)[k].start <= FindMatches(s, 0)[k].end <= |s| && ts[k] == s[FindMatches(s, 0)[k].start..FindMatches(s, 0)[k].end]
    ensures forall k :: 0 <= k < |ts| ==> IsMarker(ts[k])
  {
    var ms := FindMatches(s, 0);
    FindMatchesSound(s, 0);
    forall k | 0 <= k < |ms| ensures ms[k].start < ms[k].end <= |s| && IsMarker(s[ms[k].start..ms[k].end]) {
      MatchAtSound(s, ms[k].start);
    }
    seq(|ms|, k requires 0 <= k < |ms| => s[ms[k].start..ms[k].end])
  }

  // ---------------------------------------------------------------------
  // The grammar of a marker, stated independently of the matcher.

  /** `\(product[_ ]id:\s*\d+\)` as a whole string. */
  ghost predicate IsCore(t: string) {
    && |t| >= 14
    && t[..8] == "(product"
    && (t[8] == '_' || t[8] == ' ')
    && t[9..12] == "id:"
    && t[|t| - 1] == ')'
    && exists k :: 12 <= k < |t| - 1 && AllSpaces(t[12..k]) && AllDigits(t[k..|t| - 1])
  }

  /** `\s?\(product[_ ]id:\s*\d+\)` as a whole string. */
  ghost predicate IsMarker(t: string) {
    IsCore(t) || (|t| >= 1 && IsSpace(t[0]) && IsCore(t[1..]))
  }

  /** A slice of a slice is a slice of the whole. */
  lemma SliceOfSlice(s: string, a: nat, b: nat, c: nat, d: nat)
    requires a <= b <= |s| && c <= d <= b - a
    ensures s[a..b][c..d] == s[a + c..a + d]
  {
    forall x | 0 <= x < d - c ensures s[a..b][c..d][x] == s[a + c..a + d][x] {
    }
  }

  /** The grammar of a core, given where its white space ends. */
  lemma IsCoreAt(t: string, k: nat)
    requires |t| >= 14 && t[..8] == "(product" && (t[8] == '_' || t[8] == ' ') && t[9..12] == "id:"
    requires 12 <= k < |t| - 1 && AllSpaces(t[12..k]) && AllDigits(t[k..|t| - 1]) && t[|t| - 1] == ')'
    ensures IsCore(t)
  {
  }

  lemma CoreAtSound(s: string, j: nat)
    requires CoreAt(s, j).Some?
    ensures var m := CoreAt(s, j).value;
            && m.start == j && j + 14 <= m.end <= |s|
            && j + 12 <= m.digitsStart < m.digitsEnd == m.end - 1
            && AllSpaces(s[j + 12..m.digitsStart]) && AllDigits(s[m.digitsStart..m.digitsEnd])
            && !IsDigit(s[m.digitsStart - 1])
            && m.id == ParseDigits(s[m.digitsStart..m.digitsEnd])
            && IsCore(s[j..m.end])
  {
    var m := CoreAt(s, j).value;
    if m.digitsStart == j + 12 {
      assert s[j + 11] == s[j + 9..j + 12][2];
    } else {
      assert s[m.digitsStart - 1] == s[j + 12..m.digitsStart][m.digitsStart - 1 - (j + 12)];
      if IsDigit(s[m.digitsStart - 1]) {
        DigitIsNotSpace(s[m.digitsStart - 1]);
      }
    }
    var e := m.end;
    var k := m.digitsStart - j;
    SliceOfSlice(s, j, e, 0, 8);
    SliceOfSlice(s, j, e, 9, 12);
    SliceOfSlice(s, j, e, 12, k);
    SliceOfSlice(s, j, e, k, e - j - 1);
    IsCoreAt(s[j..e], k);
  }

  /**
   * What the regular expression matches at a position is a marker: white
   * space is taken only when a marker follows it, and the `product_id`
   * group is the digit run just before the closing parenthesis.
   */
  lemma MatchAtSound(s: string, i: nat)
    requires MatchAt(s, i).Some?
    ensures var m := MatchAt(s, i).value;
            && m.start == i && i < m.end <= |s|
            && IsMarker(s[i..m.end])
            && i + 12 <= m.digitsStart < m.digitsEnd == m.end - 1 && s[m.digitsEnd] == ')'
            && !IsDigit(s[m.digitsStart - 1])
            && AllDigits(s[m.digitsStart..m.digitsEnd])
            && m.id == ParseDigits(s[m.digitsStart..m.digitsEnd])
  {
    if i < |s| && IsSpace(s[i]) && CoreAt(s, i + 1).Some? {
      var c := CoreAt(s, i + 1).value;
      assert MatchAt(s, i) == Some(c.(start := i));
      CoreAtSound(s, i + 1);
      SpacedCoreIsMarker(s, i, c.end);
    } else {
      assert MatchAt(s, i) == CoreAt(s, i);
      CoreAtSound(s, i);
    }
  }

  /** White space followed by a core is a marker. */
  lemma SpacedCoreIsMarker(s: string, i: nat, e: nat)
    requires i < e <= |s| && IsSpace(s[i]) && IsCore(s[i + 1..e])
    ensures IsMarker(s[i..e])
  {
    SliceOfSlice(s, i, e, 1, e - i);
  }

  /** The core matcher succeeds on a core laid out in `s` itself. */
  lemma CoreAtOfParts(s: string, j: nat, d: nat, e: nat)
    requires j + 12 <= d < e - 1 && e <= |s|
    requires s[j..j + 8] == "(product" && (s[j + 8] == '_' || s[j + 8] == ' ') && s[j + 9..j + 12] == "id:"
    requires AllSpaces(s[j + 12..d]) && AllDigits(s[d..e - 1]) && IsDigit(s[d]) && s[e - 1] == ')'
    ensures CoreAt(s, j).Some? && CoreAt(s, j).value.end == e
  {
    SpacesRunEnds(s, j + 12, d);
    DigitsRunEnds(s, d, e - 1);
  }

  lemma CoreAtComplete(s: string, j: nat, e: nat)
    requires j < e <= |s| && IsCore(s[j..e])
    ensures CoreAt(s, j).Some? && CoreAt(s, j).value.end == e
  {
    var t := s[j..e];
    var k :| 12 <= k < |t| - 1 && AllSpaces(t[12..k]) && AllDigits(t[k..|t| - 1]);
    SliceOfSlice(s, j, e, 0, 8);
    SliceOfSlice(s, j, e, 9, 12);
    SliceOfSlice(s, j, e, 12, k);
    SliceOfSlice(s, j, e, k, e - j - 1);
    assert s[j + 8] == t[8] && s[e - 1] == t[|t| - 1];
    assert IsDigit(s[j + k]) by {
      assert t[k..|t| - 1][0] == t[k] == s[j + k];
    }
    CoreAtOfParts(s, j, j + k, e);
  }

  /** Skipping white space from `i` stops at the digit that ends a white-space run. */
  lemma {:induction false} SpacesRunEnds(s: string, i: nat, k: nat)
    requires i <= k < |s| && AllSpaces(s[i..k]) && IsDigit(s[k])
    ensures SkipSpaces(s, i) == k
    decreases k - i
  {
    if i < k {
      assert IsSpace(s[i..k][0]);
      SliceOfSlice(s, i, k, 1, k - i);
      SpacesRunEnds(s, i + 1, k);
    } else {
      DigitIsNotSpace(s[k]);
    }
  }

  /** Skipping digits from `i` stops at the `)` that ends a digit run. */
  lemma {:induction false} DigitsRunEnds(s: string, i: nat, k: nat)
    requires i <= k < |s| && AllDigits(s[i..k]) && s[k] == ')'
    ensures SkipDigits(s, i) == k
    decreases k - i
  {
    if i < k {
      assert IsDigit(s[i..k][0]);
      SliceOfSlice(s, i, k, 1, k - i);
      DigitsRunEnds(s, i + 1, k);
    }
  }

  /**
   * Whenever a marker starts at a position, the regular expression matches
   * there, and exactly that marker: markers starting at one position are
   * unique.
   */
  lemma MatchAtComplete(s: string, i: nat, e: nat)
    requires i < e <= |s| && IsMarker(s[i..e])
    ensures MatchAt(s, i).Some? && MatchAt(s, i).value.end == e
  {
    var t := s[i..e];
    if IsCore(t) {
      CoreAtComplete(s, i, e);
      assert !IsSpace(s[i]) by {
        assert s[i] == t[..8][0];
      }
    } else {
      assert t[1..] == s[i + 1..e];
      CoreAtComplete(s, i + 1, e);
    }
  }

  // ---------------------------------------------------------------------
  // What `matchAll` returns.

  /** Position `p` lies inside one of the matches `ms`. */
  ghost predicate Covered(ms: seq<Match>, p: nat) {
    exists k :: 0 <= k < |ms| && ms[k].start <= p < ms[k].end
  }

  /**
   * The matches `ms` lie at or after `from`, each is what the pattern
   * matches at its start, and they come in order without overlap.
   */
  ghost predicate MatchesInOrder(s: string, ms: seq<Match>, from: nat) {
    && (forall k :: 0 <= k < |ms| ==> from <= ms[k].start && MatchAt(s, ms[k].start) == Some(ms[k]))
    && (forall k :: 0 <= k < |ms| - 1 ==> ms[k].end <= ms[k + 1].start)
  }

  /** The `k`-th match from `from` is what the pattern matches at its start. */
  /** Indexing past the head of a list. */
  lemma ConsAt(m: Match, rest: seq<Match>, k: nat)
    requires 0 < k <= |rest|
    ensures ([m] + rest)[k] == rest[k - 1]
  {
  }

  lemma {:induction false} FindMatchesAt(s: string, from: nat, k: nat)
    requires k < |FindMatches(s, from)|
    ensures MatchAt(s, FindMatches(s, from)[k].start) == Some(FindMatches(s, from)[k])
    decreases |s| - from
  {
    if from >= |s| {
      assert false;
    }
    var o := MatchAt(s, from);
    if o.Some? {
      var m := o.value;
      var rest := FindMatches(s, m.end);
      assert FindMatches(s, from) == [m] + rest;
      if k == 0 {
        assert FindMatches(s, from)[0] == m && m.start == from;
      } else {
        FindMatchesAt(s, m.end, k - 1);
        ConsAt(m, rest, k);
      }
    } else {
      assert FindMatches(s, from) == FindMatches(s, from + 1);
      FindMatchesAt(s, from + 1, k);
    }
  }

  /** The `k`-th match ends before the next one starts. */
  lemma {:induction false} FindMatchesOrdered(s: string, from: nat, k: nat)
    requires k + 1 < |FindMatches(s, from)|
    ensures FindMatches(s, from)[k].end <= FindMatches(s, from)[k + 1].start
    decreases |s| - from
  {
    if from >= |s| {
      assert false;
    }
    var o := MatchAt(s, from);
    if o.Some? {
      var m := o.value;
      var rest := FindMatches(s, m.end);
      assert FindMatches(s, from) == [m] + rest;
      if k > 0 {
        FindMatchesOrdered(s, m.end, k - 1);
        ConsAt(m, rest, k);
        ConsAt(m, rest, k + 1);
      } else {
        FindMatchesAt(s, m.end, 0);
      }
    } else {
      assert FindMatches(s, from) == FindMatches(s, from + 1);
      FindMatchesOrdered(s, from + 1, k);
    }
  }

  /** Every match lies after `from`, is what the pattern matches at its start, and the matches are in order without overlap. */
  lemma FindMatchesSound(s: string, from: nat)
    ensures MatchesInOrder(s, FindMatches(s, from), from)
  {
    var ms := FindMatches(s, from);
    forall k | 0 <= k < |ms| ensures from <= ms[k].start && MatchAt(s, ms[k].start) == Some(ms[k]) {
      FindMatchesAt(s, from, k);
    }
    forall k | 0 <= k < |ms| - 1 ensures ms[k].end <= ms[k + 1].start {
      FindMatchesOrdered(s, from, k);
    }
  }

  /** A match found at `from` is followed by the matches after its end. */
  lemma CoveredCons(m: Match, rest: seq<Match>, p: nat)
    requires Covered(rest, p)
    ensures Covered([m] + rest, p)
  {
    var k :| 0 <= k < |rest| && rest[k].start <= p < rest[k].end;
    assert ([m] + rest)[k + 1] == rest[k];
  }

  /** `matchAll` misses nothing: a marker can start only at a match or inside one. */
  lemma {:induction false} FindMatchesComplete(s: string, from: nat, p: nat)
    requires from <= p < |s| && MatchAt(s, p).Some?
    ensures Covered(FindMatches(s, from), p)
    decreases |s| - from
  {
    var o := MatchAt(s, from);
    if o.Some? {
      var m := o.value;
      var rest := FindMatches(s, m.end);
      assert FindMatches(s, from) == [m] + rest;
      if p >= m.end {
        FindMatchesComplete(s, m.end, p);
        CoveredCons(m, rest, p);
      } else {
        assert ([m] + rest)[0] == m;
      }
    } else {
      assert p != from;
      FindMatchesComplete(s, from + 1, p);
    }
  }

  /** `matchAll` finds nothing exactly when no substring of the text is a marker. */
  lemma NoMatches(s: string)
    ensures FindMatches(s, 0) == [] <==> forall p, e :: 0 <= p < e <= |s| ==> !IsMarker(s[p..e])
  {
    if FindMatches(s, 0) == [] {
      forall p, e | 0 <= p < e <= |s| ensures !IsMarker(s[p..e]) {
        if IsMarker(s[p..e]) {
          MatchAtComplete(s, p, e);
          FindMatchesComplete(s, 0, p);
          assert false;
        }
      }
    } else {
      FindMatchesSound(s, 0);
      var m := FindMatches(s, 0)[0];
      MatchAtSound(s, m.start);
    }
  }
}

/**
 * The response post-processor of the chatbot service
 * (`extractProductsFromResponse`): strip the product markers from the
 * model's answer, collect the ids they cite without repeats, and look the
 * products up in the catalog.
 */
module PostProcessor {
  import opened Wrappers
  import opened JsText
  import opened JsCollections
  import opened Catalog
  import opened Markers

  /** `t` occurs in `s` at position `k`. */
  predicate OccursAt(s: string, t: string, k: nat) {
    k + |t| <= |s| && s[k..k + |t|] == t
  }

  /** `s.indexOf(t, from)`: the first position at or after `from` where `t` occurs. */
  function FirstOccurrence(s: string, t: string, from: nat): (r: Option<nat>)
    ensures r.Some? ==> from <= r.value && OccursAt(s, t, r.value)
    ensures r.Some? ==> forall j: nat :: from <= j < r.value ==> !OccursAt(s, t, j)
    ensures r.None? ==> forall j: nat :: from <= j ==> !OccursAt(s, t, j)
    decreases |s| - from
  {
    if from + |t| > |s| then None
    else if s[from..from + |t|] == t then Some(from)
    else FirstOccurrence(s, t, from + 1)
  }

  /**
   * `s.replace(t, '')` with a string pattern: the first occurrence of `t`
   * is cut out and the rest of `s` is kept; without an occurrence `s` comes
   * back unchanged.
   */
  function RemoveFirst(s: string, t: string): (r: string)
    ensures (forall j: nat :: !OccursAt(s, t, j)) ==> r == s
    ensures forall k: nat :: OccursAt(s, t, k) && (forall j: nat :: j < k ==> !OccursAt(s, t, j)) ==>
              r == s[..k] + s[k + |t|..]
    ensures |r| <= |s|
  {
    match FirstOccurrence(s, t, 0)
    case None => s
    case Some(k) => s[..k] + s[k + |t|..]
  }

  /** The message after one `replace` per matched text, in match order. */
  function RemoveEach(s: string, ts: seq<string>): (r: string)
    decreases |ts|
  {
    if ts == [] then s else RemoveFirst(RemoveEach(s, ts[..|ts| - 1]), ts[|ts| - 1])
  }

  /** Replacing never lengthens the message, and a first text that occurs in it shortens it. */
  lemma {:induction false} RemoveEachShortens(s: string, ts: seq<string>)
    ensures |RemoveEach(s, ts)| <= |s|
    ensures |ts| > 0 && |ts[0]| > 0 && (exists k: nat :: OccursAt(s, ts[0], k)) ==> |RemoveEach(s, ts)| < |s|
    decreases |ts|
  {
    if ts != [] {
      var pre := ts[..|ts| - 1];
      RemoveEachShortens(s, pre);
      if |ts| == 1 && |ts[0]| > 0 && (exists k: nat :: OccursAt(s, ts[0], k)) {
        assert pre == [];
        var k := FirstOccurrence(s, ts[0], 0);
      } else if |ts| > 1 {
        assert pre[0] == ts[0];
      }
    }
  }

  lemma RemoveEachStep(s: string, ts: seq<string>, k: nat)
    requires k < |ts|
    ensures RemoveEach(s, ts[..k + 1]) == RemoveFirst(RemoveEach(s, ts[..k]), ts[k])
  {
    assert ts[..k + 1][..k] == ts[..k];
  }

  lemma RecordedStep(s: string, k: nat)
    requires k < |FindMatches(s, 0)|
    ensures RecordedIds(s)[..k + 1] == RecordedIds(s)[..k] + [FindMatches(s, 0)[k].id]
  {
  }

  /** A marker is never empty, so a response with a match loses text. */
  lemma MatchesShorten(s: string)
    requires FindMatches(s, 0) != []
    ensures |RemoveEach(s, MatchedTexts(s))| < |s|
  {
    var texts := MatchedTexts(s);
    var m := FindMatches(s, 0)[0];
    assert IsMarker(texts[0]);
    assert OccursAt(s, texts[0], m.start);
    RemoveEachShortens(s, texts);
  }

  /** A response without any marker passes through untouched. */
  lemma NoMarkersUnchanged(s: string)
    requires forall p, e :: 0 <= p < e <= |s| ==> !IsMarker(s[p..e])
    ensures RemoveEach(s, MatchedTexts(s)) == s && RecordedIds(s) == []
  {
    NoMatches(s);
    assert MatchedTexts(s) == [];
  }

  /**
   * The loop of `extractProductsFromResponse` up to the `Set`: for every
   * match, in order, cut the first occurrence of its text out of the
   * current message and record its id; then drop repeated ids.
   */
  method ExtractProductIds(response: string) returns (message: string, ids: seq<nat>)
    ensures message == RemoveEach(response, MatchedTexts(response))
    ensures ids == Dedup(RecordedIds(response))
    ensures (forall p, e :: 0 <= p < e <= |response| ==> !IsMarker(response[p..e])) ==> message == response && ids == []
    ensures FindMatches(response, 0) != [] ==> |message| < |response|
  {
    var matches := FindMatches(response, 0);
    var texts := MatchedTexts(response);
    var recorded: seq<nat> := [];
    message := response;
    for k := 0 to |matches|
      invariant message == RemoveEach(response, texts[..k])
      invariant recorded == RecordedIds(response)[..k]
    {
      RemoveEachStep(response, texts, k);
      RecordedStep(response, k);
      message := RemoveFirst(message, texts[k]);
      recorded := recorded + [matches[k].id];
    }
    assert texts[..|matches|] == texts;
    assert recorded == RecordedIds(response);
    ids := Dedup(recorded);
    if forall p, e :: 0 <= p < e <= |response| ==> !IsMarker(response[p..e]) {
      NoMarkersUnchanged(response);
    }
    if matches != [] {
      MatchesShorten(response);
    }
  }

  /**
   * `extractProductsFromResponse` with the catalog passed in: the cleaned
   * message and the catalog products whose ids the markers cite.
   */
  method ExtractProductsFromResponse(response: string, catalog: seq<Product>) returns (message: string, products: seq<Product>)
    ensures message == RemoveEach(response, MatchedTexts(response))
    ensures forall p :: p in products <==> p in catalog && p.id in RecordedIds(response)
    ensures products == ProductsByIds(catalog, Dedup(RecordedIds(response)))
  {
    var ids;
    message, ids := ExtractProductIds(response);
    products := ProductsByIds(catalog, ids);
  }

  /** The marker core `(product_id:<id>)` is matched at its start, with the id as its value. */
  lemma MarkerCoreAt(id: nat)
    ensures var s := "(product_id:" + NatText(id) + ")";
            CoreAt(s, 0) == Some(Match(0, |s|, 12, |s| - 1, id))
  {
    var t := NatText(id);
    var s := "(product_id:" + t + ")";
    var e := |s| - 1;
    assert s[..8] == "(product" && s[8] == '_' && s[9..12] == "id:" && s[e] == ')';
    assert s[12..e] == t;
    assert IsDigit(s[12]) by { assert s[12] == t[0]; }
    SpacesRunEnds(s, 12, 12);
    DigitsRunEnds(s, 12, e);
    ParseNatText(id);
  }

  /** `matchAll` finds the marker `(product_id:<id>)` once, as the whole text. */
  lemma MarkerFound(id: nat)
    ensures var s := "(product_id:" + NatText(id) + ")";
            FindMatches(s, 0) == [Match(0, |s|, 12, |s| - 1, id)]
  {
    var s := "(product_id:" + NatText(id) + ")";
    MarkerCoreAt(id);
    assert MatchAt(s, 0) == CoreAt(s, 0);
  }

  /**
   * A marker written with a product's id, as it appears in the document's
   * source tag, is found, records exactly that id and is removed entirely.
   */
  lemma MarkerRecordsId(id: nat)
    ensures var s := "(product_id:" + NatText(id) + ")";
            RecordedIds(s) == [id] && RemoveEach(s, MatchedTexts(s)) == ""
  {
    var s := "(product_id:" + NatText(id) + ")";
    MarkerFound(id);
    assert MatchedTexts(s) == [s[0..|s|]];
    assert s[0..|s|] == s;
    RemoveEachSnoc(s, [], s);
    RemoveFirstFront(s, "");
    assert s + "" == s;
  }

  /** A one-digit marker core `t` sitting at `j` in `s` is matched there, with its digit as the id. */
  lemma CoreAtOneDigit(s: string, j: nat, t: string)
    requires j + 14 <= |s| && s[j..j + 14] == t && |t| == 14
    requires t[..8] == "(product" && (t[8] == '_' || t[8] == ' ') && t[9..12] == "id:" && IsDigit(t[12]) && t[13] == ')'
    ensures CoreAt(s, j) == Some(Match(j, j + 14, j + 12, j + 13, DigitValue(t[12])))
  {
    forall x | 0 <= x < 14 ensures s[j + x] == t[x] {
      assert s[j..j + 14][x] == t[x];
    }
    assert s[j..j + 8] == t[..8];
    assert s[j + 9..j + 12] == t[9..12];
    assert s[j + 12..j + 13] == [t[12]];
    assert ParseDigits([t[12]]) == DigitValue(t[12]) by {
      assert [t[12]][..0] == [];
    }
    assert !IsSpace(s[j + 12]) by { DigitIsNotSpace(s[j + 12]); }
    assert SkipSpaces(s, j + 12) == j + 12;
    assert !IsDigit(s[j + 13]);
    assert SkipDigits(s, j + 13) == j + 13;
    assert SkipDigits(s, j + 12) == j + 13;
  }

  /** A response citing 7, then 3 after a space the match swallows, then 7 again. */
  const ExampleResponse: string := "(product_id:7)" + " " + "(product id:3)" + "(product_id:7)"

  /** The three parts of the example response. */
  lemma ExampleParts()
    ensures ExampleResponse == "(product_id:7)" + " (product id:3)" + "(product_id:7)"
    ensures ExampleResponse[0..14] == "(product_id:7)" && ExampleResponse[14..29] == " (product id:3)"
    ensures ExampleResponse[29..43] == "(product_id:7)" && |ExampleResponse| == 43
  {
    var a, b := "(product_id:7)", " (product id:3)";
    assert ExampleResponse == a + b + a;
    ThreeParts(a, b, a);
  }

  lemma ExampleFirstMatch()
    ensures MatchAt(ExampleResponse, 0) == Some(Match(0, 14, 12, 13, 7))
  {
    ExampleParts();
    ExampleMarkerAt(ExampleResponse, 0, "(product_id:7)");
  }

  lemma ExampleSecondMatch()
    ensures MatchAt(ExampleResponse, 14) == Some(Match(14, 29, 27, 28, 3))
  {
    ExampleParts();
    ExampleSpacedMarkerAt(ExampleResponse, 14, " (product id:3)");
  }

  lemma ExampleThirdMatch()
    ensures MatchAt(ExampleResponse, 29) == Some(Match(29, 43, 41, 42, 7))
  {
    ExampleParts();
    ExampleMarkerAt(ExampleResponse, 29, "(product_id:7)");
  }

  /** A one-digit core right after white space is matched together with that space. */
  lemma ExampleSpacedMarkerAt(s: string, j: nat, t: string)
    requires j + 15 <= |s| && s[j..j + 15] == t && |t| == 15 && IsSpace(t[0])
    requires t[1..9] == "(product" && (t[9] == '_' || t[9] == ' ') && t[10..13] == "id:" && IsDigit(t[13]) && t[14] == ')'
    ensures MatchAt(s, j) == Some(Match(j, j + 15, j + 13, j + 14, DigitValue(t[13])))
  {
    assert s[j] == t[0];
    SliceOfSlice(s, j, j + 15, 1, 15);
    assert t[1..][..8] == t[1..9] && t[1..][9..12] == t[10..13];
    CoreAtOneDigit(s, j + 1, t[1..]);
  }

  /** A one-digit core that does not follow white space is matched on its own. */
  lemma ExampleMarkerAt(s: string, j: nat, t: string)
    requires j + 14 <= |s| && s[j..j + 14] == t && |t| == 14 && t[0] == '('
    requires t[..8] == "(product" && (t[8] == '_' || t[8] == ' ') && t[9..12] == "id:" && IsDigit(t[12]) && t[13] == ')'
    ensures MatchAt(s, j) == Some(Match(j, j + 14, j + 12, j + 13, DigitValue(t[12])))
  {
    assert s[j] == t[0];
    CoreAtOneDigit(s, j, t);
  }

  lemma ExampleMatches()
    ensures FindMatches(ExampleResponse, 0) == [Match(0, 14, 12, 13, 7), Match(14, 29, 27, 28, 3), Match(29, 43, 41, 42, 7)]
  {
    var s := ExampleResponse;
    ExampleFirstMatch();
    ExampleSecondMatch();
    ExampleThirdMatch();
    assert FindMatches(s, 29) == [Match(29, 43, 41, 42, 7)] + FindMatches(s, 43);
    assert FindMatches(s, 14) == [Match(14, 29, 27, 28, 3)] + FindMatches(s, 29);
  }

  /** The ids come out as 7 and 3, each once, in first-seen order. */
  lemma ExampleIds()
    ensures RecordedIds(ExampleResponse) == [7, 3, 7]
    ensures Dedup(RecordedIds(ExampleResponse)) == [7, 3]
  {
    ExampleRecorded();
    ExampleDedup();
  }

  lemma ExampleRecorded()
    ensures RecordedIds(ExampleResponse) == [7, 3, 7]
  {
    var ms := FindMatches(ExampleResponse, 0);
    ExampleMatches();
    var ids := RecordedIds(ExampleResponse);
    assert |ids| == 3 && ids[0] == ms[0].id && ids[1] == ms[1].id && ids[2] == ms[2].id;
  }

  lemma ExampleDedup()
    ensures Dedup([7, 3, 7]) == [7, 3]
  {
    assert [7, 3, 7][..2] == [7, 3] && [7, 3][..1] == [7];
  }

  /** The matched texts, the second with the space before its parenthesis. */
  lemma ExampleTexts()
    ensures MatchedTexts(ExampleResponse) == ["(product_id:7)", " (product id:3)", "(product_id:7)"]
  {
    var s := ExampleResponse;
    ExampleParts();
    ExampleMatches();
    var ts := MatchedTexts(s);
    assert |ts| == 3 && ts[0] == s[0..14] && ts[1] == s[14..29] && ts[2] == s[29..43];
  }

  lemma ThreeParts(x: string, y: string, z: string)
    ensures (x + y + z)[..|x|] == x && (x + y + z)[|x|..|x| + |y|] == y && (x + y + z)[|x| + |y|..] == z
  {
  }

  lemma RemoveEachSnoc(s: string, ts: seq<string>, t: string)
    ensures RemoveEach(s, ts + [t]) == RemoveFirst(RemoveEach(s, ts), t)
  {
    assert (ts + [t])[..|ts|] == ts;
  }

  /** A text cut from the front of itself followed by more leaves the rest. */
  lemma RemoveFirstFront(t: string, rest: string)
    ensures RemoveFirst(t + rest, t) == rest
  {
    assert OccursAt(t + rest, t, 0);
    assert (t + rest)[|t|..] == rest;
  }

  /** Cutting `a`, `b`, `a` from `a + b + a`, one first occurrence at a time, leaves nothing. */
  lemma RemoveEachAll(a: string, b: string)
    ensures RemoveEach(a + b + a, [a, b, a]) == ""
  {
    var s := a + b + a;
    assert s == a + (b + a);
    assert [] + [a] == [a] && [a] + [b] == [a, b] && [a, b] + [a] == [a, b, a];
    RemoveEachSnoc(s, [], a);
    RemoveFirstFront(a, b + a);
    RemoveEachSnoc(s, [a], b);
    RemoveFirstFront(b, a);
    RemoveEachSnoc(s, [a, b], a);
    RemoveFirstFront(a, "");
    assert a + "" == a;
  }

  /** The three markers are cut out one by one and nothing is left. */
  lemma ExampleMessage()
    ensures RemoveEach(ExampleResponse, MatchedTexts(ExampleResponse)) == ""
  {
    var a, b := "(product_id:7)", " (product id:3)";
    ExampleTexts();
    assert ExampleResponse == a + b + a;
    ghost var s := ExampleResponse;
    assert MatchedTexts(s) == [a, b, a];
    RemoveEachAll(a, b);
  }
}

/**
 * The two `extract_json` variants: a regex search that scrapes a brace-delimited
 * span out of the vision model's free-text answer.
 *
 * local.py and cloud.py search for `\{[\s\S]+\}` (greedy); app.py searches for
 * `{[\s\S]*?(?=})` (lazy, with the closing brace only looked ahead at). Both are
 * written here with index searches, and each is proved equal to the result
 * Python's `re.search` gives: the match with the leftmost start, and among the
 * matches at that start the longest (greedy) or the shortest (lazy) one.
 */
module Extraction {
  import opened Base
  import opened Scan

  // ---------------------------------------------------------------------------
  // Greedy variant: local.py, cloud.py
  // ---------------------------------------------------------------------------

  /** `s[p..q]` is a match of `\{[\s\S]+\}`: an opening brace, at least one
      character of any kind, a closing brace. */
  predicate GreedyMatch(s: string, p: int, q: int) {
    0 <= p && p + 3 <= q <= |s| && s[p] == '{' && s[q - 1] == '}'
  }

  /** `s[p..q]` is the match `re.search` reports for the greedy pattern: no match
      starts further left, and no match from `p` reaches further right. */
  ghost predicate GreedySearchHit(s: string, p: int, q: int) {
    && GreedyMatch(s, p, q)
    && (forall p', q' :: GreedyMatch(s, p', q') ==> p <= p')
    && (forall q' :: GreedyMatch(s, p, q') ==> q' <= q)
  }

  /** `extract_json` of local.py and cloud.py: from the first `{` through the last
      `}`, provided at least one character lies between them. */
  function ExtractGreedy(response: string): (r: Option<string>)
    ensures r.Some? ==> 3 <= |r.value| && r.value[0] == '{' && r.value[|r.value| - 1] == '}'
  {
    match IndexOf(response, '{')
    case None => None
    case Some(i) =>
      match LastIndexOf(response, '}')
      case None => None
      case Some(k) => if k >= i + 2 then Some(response[i..k + 1]) else None
  }

  /** The greedy extractor finds nothing exactly when the pattern matches nowhere,
      that is, when no `}` stands two or more places after any `{`. A later `{` never
      rescues a failed first one. */
  lemma GreedyNoneIff(s: string)
    ensures ExtractGreedy(s).None? <==> forall p, q :: !GreedyMatch(s, p, q)
  {
    if ExtractGreedy(s).None? {
      forall p, q ensures !GreedyMatch(s, p, q) { }
    } else {
      var i := IndexOf(s, '{').value;
      var k := LastIndexOf(s, '}').value;
      assert GreedyMatch(s, i, k + 1);
    }
  }

  /** Soundness against `re.search`: a result is the match Python reports. */
  lemma GreedySound(s: string)
    requires ExtractGreedy(s).Some?
    ensures exists p, q :: GreedySearchHit(s, p, q) && ExtractGreedy(s).value == s[p..q]
  {
    var i := IndexOf(s, '{').value;
    var k := LastIndexOf(s, '}').value;
    assert GreedySearchHit(s, i, k + 1);
  }

  /** Completeness against `re.search`: the match Python reports is the result. */
  lemma GreedyComplete(s: string, p: int, q: int)
    requires GreedySearchHit(s, p, q)
    ensures ExtractGreedy(s) == Some(s[p..q])
  {
    GreedyNoneIff(s);
    var i := IndexOf(s, '{').value;
    var k := LastIndexOf(s, '}').value;
    assert GreedyMatch(s, i, k + 1);
    assert GreedyMatch(s, p, k + 1);
  }

  /** The greedy span reaches from the first `{` of the input to its last `}`: no
      match anywhere in the input ends beyond it, so nested objects are taken whole. */
  lemma GreedyFirstToLast(s: string) returns (p: int)
    requires ExtractGreedy(s).Some?
    ensures
      && 0 <= p && p + |ExtractGreedy(s).value| <= |s|
      && s[p..p + |ExtractGreedy(s).value|] == ExtractGreedy(s).value
      && (forall j :: 0 <= j < p ==> s[j] != '{')
      && (forall j :: p + |ExtractGreedy(s).value| <= j < |s| ==> s[j] != '}')
      && (forall p', q' :: GreedyMatch(s, p', q') ==> q' <= p + |ExtractGreedy(s).value|)
  {
    var i := IndexOf(s, '{').value;
    var k := LastIndexOf(s, '}').value;
    assert |ExtractGreedy(s).value| == k + 1 - i;
    p := i;
  }

  /** Applying the greedy extractor to its own output gives that output back. */
  lemma GreedyIdempotent(s: string)
    requires ExtractGreedy(s).Some?
    ensures ExtractGreedy(ExtractGreedy(s).value) == ExtractGreedy(s)
  {
    var t := ExtractGreedy(s).value;
    forall p', q' | GreedyMatch(t, p', q') ensures 0 <= p' && q' <= |t| { }
    assert GreedySearchHit(t, 0, |t|);
    GreedyComplete(t, 0, |t|);
    assert t[0..|t|] == t;
  }

  // ---------------------------------------------------------------------------
  // Lazy variant: app.py
  // ---------------------------------------------------------------------------

  /** `s[p..q]` is a match of `{[\s\S]*?(?=})`: an opening brace and any characters,
      followed (but not consumed) by a closing brace at `q`. */
  predicate LazyMatch(s: string, p: int, q: int) {
    0 <= p < q < |s| && s[p] == '{' && s[q] == '}'
  }

  /** `s[p..q]` is the match `re.search` reports for the lazy pattern: no match
      starts further left, and no match from `p` stops earlier. */
  ghost predicate LazySearchHit(s: string, p: int, q: int) {
    && LazyMatch(s, p, q)
    && (forall p', q' :: LazyMatch(s, p', q') ==> p <= p')
    && (forall q' :: LazyMatch(s, p, q') ==> q <= q')
  }

  /** `extract_json` of app.py: from the first `{` up to, but not including, the
      first `}` after it. */
  function ExtractLazy(response: string): (r: Option<string>)
    ensures r.Some? ==> 1 <= |r.value| && r.value[0] == '{'
    ensures r.Some? ==> forall j :: 0 <= j < |r.value| ==> r.value[j] != '}'
  {
    match IndexOf(response, '{')
    case None => None
    case Some(i) =>
      match IndexOf(response[i + 1..], '}')
      case None => None
      case Some(d) => Some(response[i..i + 1 + d])
  }

  /** The lazy extractor finds nothing exactly when no `}` follows any `{`. */
  lemma LazyNoneIff(s: string)
    ensures ExtractLazy(s).None? <==> forall p, q :: !LazyMatch(s, p, q)
  {
    if ExtractLazy(s).None? {
      forall p, q ensures !LazyMatch(s, p, q) { }
    } else {
      var i := IndexOf(s, '{').value;
      var d := IndexOf(s[i + 1..], '}').value;
      assert LazyMatch(s, i, i + 1 + d);
    }
  }

  /** Soundness against `re.search`: a result is the match Python reports. */
  lemma LazySound(s: string)
    requires ExtractLazy(s).Some?
    ensures exists p, q :: LazySearchHit(s, p, q) && ExtractLazy(s).value == s[p..q]
  {
    var i := IndexOf(s, '{').value;
    var d := IndexOf(s[i + 1..], '}').value;
    forall q' | LazyMatch(s, i, q') ensures i + 1 + d <= q' {
      assert s[i + 1..][q' - i - 1] == '}';
    }
    assert LazySearchHit(s, i, i + 1 + d);
  }

  /** Completeness against `re.search`: the match Python reports is the result. */
  lemma LazyComplete(s: string, p: int, q: int)
    requires LazySearchHit(s, p, q)
    ensures ExtractLazy(s) == Some(s[p..q])
  {
    LazyNoneIff(s);
    var i := IndexOf(s, '{').value;
    var d := IndexOf(s[i + 1..], '}').value;
    assert LazyMatch(s, i, i + 1 + d);
    assert i == p;
    assert s[i + 1..][q - i - 1] == '}';
    assert LazyMatch(s, p, i + 1 + d);
  }

  /** The lazy span is a contiguous piece of the input that begins at its first `{`. */
  lemma LazyAtFirstBrace(s: string) returns (p: int)
    requires ExtractLazy(s).Some?
    ensures
      && 0 <= p && p + |ExtractLazy(s).value| < |s|
      && s[p..p + |ExtractLazy(s).value|] == ExtractLazy(s).value
      && (forall j :: 0 <= j < p ==> s[j] != '{')
      && s[p + |ExtractLazy(s).value|] == '}'
  {
    var i := IndexOf(s, '{').value;
    var d := IndexOf(s[i + 1..], '}').value;
    assert s[i + 1..][d] == '}';
    p := i;
  }

  /** The lazy output never contains a `}`, so extracting from it again finds nothing:
      unlike the greedy variant, the lazy one is not idempotent. */
  lemma LazyOutputRejected(s: string)
    requires ExtractLazy(s).Some?
    ensures ExtractLazy(ExtractLazy(s).value).None?
  {
    var t := ExtractLazy(s).value;
    LazyNoneIff(t);
  }

  /** Whenever the greedy variant succeeds, the lazy one succeeds too, with a strict
      prefix of the greedy span that stops before the first inner `}`. */
  lemma LazyPrefixOfGreedy(s: string)
    requires ExtractGreedy(s).Some?
    ensures ExtractLazy(s).Some?
    ensures |ExtractLazy(s).value| < |ExtractGreedy(s).value|
    ensures ExtractLazy(s).value == ExtractGreedy(s).value[..|ExtractLazy(s).value|]
  {
    var i := IndexOf(s, '{').value;
    var k := LastIndexOf(s, '}').value;
    assert s[i + 1..][k - i - 1] == '}';
    var d := IndexOf(s[i + 1..], '}').value;
    assert d <= k - i - 1;
  }

  // ---------------------------------------------------------------------------
  // The lazy variant against a JSON validator
  // ---------------------------------------------------------------------------

  /** What any JSON parser (`json.loads`, PostgreSQL's `jsonb` input) does with a
      text that opens an object: it accepts it only if the object is closed. */
  ghost predicate ClosesObjects(valid: string -> bool) {
    forall t :: valid(t) && |t| > 0 && t[0] == '{' ==> '}' in t
  }

  /** As written, app.py's extractor never yields text a JSON parser accepts: its
      output opens an object and never contains the closing brace. */
  lemma LazyNeverValidObject(s: string, valid: string -> bool)
    requires ClosesObjects(valid)
    requires ExtractLazy(s).Some?
    ensures !valid(ExtractLazy(s).value)
  {
    var t := ExtractLazy(s).value;
    assert '}' !in t by {
      forall j | 0 <= j < |t| ensures t[j] != '}' { }
    }
  }

  /** The lazy search with the closing brace consumed (`{[\s\S]*?}`): from the first
      `{` through the first `}` after it. */
  function ExtractLazyClosed(response: string): (r: Option<string>)
    ensures r.Some? ==> 2 <= |r.value| && r.value[0] == '{' && r.value[|r.value| - 1] == '}'
    ensures r.Some? ==> forall j :: 0 <= j < |r.value| - 1 ==> r.value[j] != '}'
  {
    match IndexOf(response, '{')
    case None => None
    case Some(i) =>
      match IndexOf(response[i + 1..], '}')
      case None => None
      case Some(d) => Some(response[i..i + 2 + d])
  }

  /** The closed variant succeeds on the same inputs as app.py's and returns its text
      followed by the brace that app.py leaves out, so its output can be valid JSON. */
  lemma LazyClosedExtends(s: string)
    ensures ExtractLazyClosed(s).Some? <==> ExtractLazy(s).Some?
    ensures ExtractLazy(s).Some? ==> ExtractLazyClosed(s).value == ExtractLazy(s).value + "}"
    ensures ExtractLazyClosed(s).Some? ==> '}' in ExtractLazyClosed(s).value
  {
    match IndexOf(s, '{')
    case None =>
    case Some(i) =>
      match IndexOf(s[i + 1..], '}')
      case None =>
      case Some(d) =>
        assert s[i + 1..][d] == '}';
        assert s[i..i + 2 + d] == s[i..i + 1 + d] + [s[i + 1 + d]];
        var c := ExtractLazyClosed(s).value;
        assert c[|c| - 1] == '}';
  }

  // ---------------------------------------------------------------------------
  // Boundary cases
  // ---------------------------------------------------------------------------

  /** An empty object is too short for the greedy pattern, which needs a character
      between the braces; the lazy pattern takes its opening brace alone. */
  lemma EmptyObject()
    ensures ExtractGreedy("{}") == None
    ensures ExtractLazy("{}") == Some("{")
  {
    var s := "{}";
    IndexOfAt(s, '{', 0);
    LastIndexOfAt(s, '}', 1);
    IndexOfAt(s[1..], '}', 0);
    assert s[0..1] == "{";
  }

  /** The lazy pattern stops before the closing brace; the greedy one keeps it. */
  lemma FlatObject()
    ensures ExtractLazy("{\"a\": 1}") == Some("{\"a\": 1")
    ensures ExtractGreedy("{\"a\": 1}") == Some("{\"a\": 1}")
  {
    var s := "{\"a\": 1}";
    IndexOfAt(s, '{', 0);
    LastIndexOfAt(s, '}', 7);
    IndexOfAt(s[1..], '}', 6);
    assert s[0..7] == "{\"a\": 1";
    assert s[0..8] == s;
  }

  /** A nested object is taken whole by the greedy pattern, out of surrounding prose. */
  lemma NestedInProse()
    ensures ExtractGreedy("x {\"a\": {}} y") == Some("{\"a\": {}}")
  {
    var s := "x {\"a\": {}} y";
    IndexOfAt(s, '{', 2);
    LastIndexOfAt(s, '}', 10);
    assert ExtractGreedy(s) == Some(s[2..11]);
    assert s[2..11] == "{\"a\": {}}";
  }

  /** A response without any brace yields nothing from either variant. */
  lemma NoBraces(s: string)
    requires forall k :: 0 <= k < |s| ==> s[k] != '{' && s[k] != '}'
    ensures ExtractGreedy(s) == None && ExtractLazy(s) == None
  {
  }
}

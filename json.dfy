/** `extract_json_string`, the minimal JSON field scan both downloaders use
    (tinygit.c and planck.c carry the same code): no JSON grammar, only the two
    textual anchors `"key":"` and `"key": "`, and no escape handling. */
module Json {
  import opened CStr

  /** `"key":"` */
  function TightPattern(key: string): string
  {
    "\"" + key + "\":\""
  }

  /** `"key": "` */
  function SpacedPattern(key: string): string
  {
    "\"" + key + "\": \""
  }

  /** `extract_json_string(json, key)`: the pattern is the tight one when it
      occurs, otherwise the spaced one (each written into a 256-byte buffer);
      the scan then copies from its first occurrence. `allocOk` is the outcome
      of the `malloc` for the copy: NULL is returned when it fails. */
  function ExtractJsonString(json: string, key: string, allocOk: bool): (r: Option<string>)
    ensures r.Some? ==> allocOk && '"' !in r.value && Contains(json, r.value)
  {
    var tight := Snprintf(TightPattern(key), 256);
    var pattern := if Find(json, tight).Some? then tight else Snprintf(SpacedPattern(key), 256);
    ValueAt(json, pattern, allocOk)
  }

  /** From the first occurrence of `pattern`: NULL when there is none; else the
      copy of what follows it up to the next double quote. */
  function ValueAt(json: string, pattern: string, allocOk: bool): (r: Option<string>)
    ensures r.Some? ==> allocOk && '"' !in r.value && Contains(json, r.value)
  {
    match Find(json, pattern)
    case None => None
    case Some(p) => QuotedFrom(json, p + |pattern|, allocOk)
  }

  /** The copy once the pattern ends at `start`: the text before the next
      double quote, or NULL when there is none or the allocation fails. */
  function QuotedFrom(json: string, start: nat, allocOk: bool): (r: Option<string>)
    requires start <= |json|
    ensures r.Some? ==>
      allocOk && '"' !in r.value && MatchAt(json, r.value, start) &&
      start + |r.value| < |json| && json[start + |r.value|] == '"'
  {
    match FindChar(json[start..], '"')
    case None => None
    case Some(len) =>
      assert json[start..][..len] == json[start..start + len];
      if allocOk then Some(json[start..start + len]) else None
  }

  /** The anchor the scan settles on: the tight pattern whenever it occurs at all. */
  ghost function Anchor(json: string, key: string): string
  {
    if Contains(json, TightPattern(key)) then TightPattern(key) else SpacedPattern(key)
  }

  /** `v` runs from `start` up to, not including, the next double quote. */
  ghost predicate QuotedAt(json: string, start: nat, v: string)
  {
    start + |v| < |json| && json[start..start + |v|] == v && json[start + |v|] == '"' && '"' !in v
  }

  /** `v` is the text between the first occurrence of `pat` in `json` and the
      next double quote. */
  ghost predicate ValueAfter(json: string, pat: string, v: string)
  {
    exists k: nat :: FirstMatch(json, pat, k) && QuotedAt(json, k + |pat|, v)
  }

  /** At the first occurrence `p` of `pat`, "the value after `pat`" is the quoted
      text from `p + |pat|`. */
  lemma ValueAfterAt(json: string, pat: string, p: nat, v: string)
    requires FirstMatch(json, pat, p)
    ensures ValueAfter(json, pat, v) <==> QuotedAt(json, p + |pat|, v)
  {
    if ValueAfter(json, pat, v) {
      var k: nat :| FirstMatch(json, pat, k) && QuotedAt(json, k + |pat|, v);
      assert k == p;
    }
  }

  /** `QuotedFrom` yields `v` exactly when `v` is what lies between `start` and
      the next double quote, and the copy could be allocated. */
  lemma QuotedFromIff(json: string, start: nat, allocOk: bool, v: string)
    requires start <= |json|
    ensures QuotedFrom(json, start, allocOk) == Some(v) <==> allocOk && QuotedAt(json, start, v)
  {
    if allocOk && QuotedAt(json, start, v) {
      var after := json[start + |v| + 1..];
      assert json[start..] == v + ['"'] + after;
      FindCharAfter(v, '"', after);
    }
  }

  /** Scanning from a pattern yields `v` exactly when `v` is the quoted text after
      the pattern's first occurrence and the copy could be allocated; without an
      occurrence it yields nothing. */
  lemma ValueAtIff(json: string, pat: string, allocOk: bool, v: string)
    ensures ValueAt(json, pat, allocOk) == Some(v) <==> allocOk && ValueAfter(json, pat, v)
    ensures !Contains(json, pat) ==> ValueAt(json, pat, allocOk).None?
  {
    match Find(json, pat)
    case None =>
    case Some(p) =>
      QuotedFromIff(json, p + |pat|, allocOk, v);
      ValueAfterAt(json, pat, p, v);
  }

  /** For a key short enough that neither pattern is truncated, the scan starts
      from the anchor: the tight pattern if it occurs, the spaced one otherwise. */
  lemma ExtractUsesAnchor(json: string, key: string, allocOk: bool)
    requires |key| <= 250
    ensures ExtractJsonString(json, key, allocOk) == ValueAt(json, Anchor(json, key), allocOk)
  {
    var tight, spaced := TightPattern(key), SpacedPattern(key);
    assert Snprintf(tight, 256) == tight;
    assert Snprintf(spaced, 256) == spaced;
    if Find(json, tight).Some? {
      assert Anchor(json, key) == tight;
    } else {
      assert Anchor(json, key) == spaced;
    }
  }

  /** For a key short enough that neither pattern is truncated, extraction yields
      `v` exactly when `v` is the quoted text after the first occurrence of the
      anchor and the copy could be allocated. Even an empty `v` counts. */
  lemma ExtractIff(json: string, key: string, allocOk: bool, v: string)
    requires |key| <= 250
    ensures ExtractJsonString(json, key, allocOk) == Some(v) <==> allocOk && ValueAfter(json, Anchor(json, key), v)
  {
    ExtractUsesAnchor(json, key, allocOk);
    ValueAtIff(json, Anchor(json, key), allocOk, v);
  }

  /** With neither pattern in the text, there is nothing to extract. */
  lemma ExtractAbsent(json: string, key: string, allocOk: bool)
    requires |key| <= 250
    requires !Contains(json, TightPattern(key)) && !Contains(json, SpacedPattern(key))
    ensures ExtractJsonString(json, key, allocOk).None?
  {
    ExtractUsesAnchor(json, key, allocOk);
    ValueAtIff(json, Anchor(json, key), allocOk, []);
  }

  /** The tight pattern wins: when it occurs, a spaced occurrence, even an
      earlier one, is ignored. */
  lemma TightFirst(json: string, key: string, allocOk: bool)
    requires |key| <= 250 && Contains(json, TightPattern(key))
    ensures ExtractJsonString(json, key, allocOk) == ValueAt(json, TightPattern(key), allocOk)
  {
    ExtractUsesAnchor(json, key, allocOk);
  }

  /** A body that opens with `{"key":"v"` yields `v`. */
  lemma ExtractLeading(key: string, v: string, rest: string, allocOk: bool)
    requires |key| <= 250 && '"' !in v
    ensures ExtractJsonString("{" + TightPattern(key) + v + "\"" + rest, key, allocOk) == if allocOk then Some(v) else None
  {
    var pat := TightPattern(key);
    var json := "{" + pat + v + "\"" + rest;
    LeadingMatch(pat, v + "\"" + rest);
    assert json == "{" + pat + (v + "\"" + rest);
    assert QuotedAt(json, 1 + |pat|, v) by {
      assert json[1 + |pat|..1 + |pat| + |v|] == v && json[1 + |pat| + |v|] == '"';
    }
    assert ValueAfter(json, pat, v);
    assert Anchor(json, key) == pat;
    ExtractIff(json, key, allocOk, v);
  }

  /** A pattern that opens with a double quote first occurs in `"{" + pat + after`
      right after the brace. */
  lemma LeadingMatch(pat: string, after: string)
    requires |pat| > 0 && pat[0] == '"'
    ensures Find("{" + pat + after, pat) == Some(1)
  {
    var t := "{" + pat[..|pat| - 1];
    forall j: nat
      ensures !MatchAt(t, pat, j)
    {
      if j + |pat| <= |t| {
        assert t[j..j + |pat|][0] == t[0];
      }
    }
    FindAfter("{", pat, after);
  }
}

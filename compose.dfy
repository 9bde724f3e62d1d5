/**
 * The link composer of the generator page: how the selected domain,
 * identifier, key qualifiers, GS1 data attributes and custom attributes
 * are serialised into one Digital Link string, and which grammar start
 * rule the string is checked against.
 *
 * `ComposeLink` is the specification of the page's `updateDigitalLink`
 * (the imperative version is `Generator.Page.UpdateDigitalLink`).
 * `ParseLink` is an independent reading of a link back into its path
 * segments and query pairs; `ComposeParse` proves that it recovers what
 * was composed whenever no value contains a separator character.
 */
module Compose {
  import opened Text
  import opened Catalog

  /** The text whose presence anywhere in a link selects the canonical grammar. */
  const CANONICAL_MARKER: string := "id.gs1.org"
  const CANONICAL_RULE: string := "canonicalGS1webURI"
  const CUSTOM_RULE: string := "customGS1webURI"

  /**
   * `mapAlphaNumeric`: with the alphanumeric-format box ticked, a code
   * with a non-empty alias in `ALPHA_MAP` is replaced by that alias;
   * otherwise the code is used as it is.
   */
  function MapAlphaNumeric(code: string, alphanumeric: bool, alphaMap: map<string, string>): (r: string)
    ensures !alphanumeric || code !in alphaMap || alphaMap[code] == "" ==> r == code
    ensures alphanumeric && code in alphaMap && alphaMap[code] != "" ==> r == alphaMap[code]
  {
    if alphanumeric && code in alphaMap && alphaMap[code] != "" then alphaMap[code] else code
  }

  /** `customAttributesSpecified`: some custom row has both a key and a value. */
  predicate CustomAttributesSpecified(custom: seq<CustomAttribute>)
  {
    exists i :: 0 <= i < |custom| && custom[i].key != "" && custom[i].value != ""
  }

  /** Everything `updateDigitalLink` reads from the page. */
  datatype LinkInput = LinkInput(
    domainUrl: string,
    identifierCode: string,
    identifierValue: string,
    alphanumeric: bool,
    alphaMap: map<string, string>,
    qualifiers: seq<Field>,           // KEY_QUALIFIERS_LIST order
    attributes: seq<Field>,           // AI_LIST order
    customAttributes: seq<CustomAttribute>)  // insertion order

  /** The code written for an identifier or key qualifier. */
  function LinkCode(s: LinkInput, code: string): string
  {
    MapAlphaNumeric(code, s.alphanumeric, s.alphaMap)
  }

  /** `https://{domain}/{code}/{value}`, the value written verbatim. */
  function Head(s: LinkInput): string
  {
    "https://" + s.domainUrl + "/" + LinkCode(s, s.identifierCode) + "/" + s.identifierValue
  }

  /** What one key qualifier adds to the path: nothing when its value is empty. */
  function QualifierSegment(s: LinkInput, f: Field): string
  {
    if f.value != "" then "/" + LinkCode(s, f.code) + "/" + f.value else ""
  }

  /** The key qualifier part of the path, qualifiers taken in catalog order. */
  function QualifierPath(s: LinkInput, fields: seq<Field>): string
    decreases |fields|
  {
    if fields == [] then ""
    else QualifierPath(s, fields[..|fields| - 1]) + QualifierSegment(s, fields[|fields| - 1])
  }

  /** `AI_LIST.filter(item => item.value)`, as `[code, value]` pairs with the raw AI code. */
  function AttributePairs(fields: seq<Field>): seq<(string, string)>
    decreases |fields|
  {
    if fields == [] then []
    else
      var f := fields[|fields| - 1];
      AttributePairs(fields[..|fields| - 1]) + (if f.value != "" then [(f.code, f.value)] else [])
  }

  /** The custom rows that have both a key and a value, as `[key, value]` pairs. */
  function CustomPairs(custom: seq<CustomAttribute>): seq<(string, string)>
    decreases |custom|
  {
    if custom == [] then []
    else
      var a := custom[|custom| - 1];
      CustomPairs(custom[..|custom| - 1]) + (if a.key != "" && a.value != "" then [(a.key, a.value)] else [])
  }

  /** `queryParams`: GS1 attributes first, then custom pairs. */
  function QueryParams(s: LinkInput): seq<(string, string)>
  {
    AttributePairs(s.attributes) + CustomPairs(s.customAttributes)
  }

  /** `queryPresent`: some GS1 attribute has a value, or some custom pair is complete. */
  predicate QueryPresent(s: LinkInput)
  {
    (exists i :: 0 <= i < |s.attributes| && s.attributes[i].value != "")
    || CustomAttributesSpecified(s.customAttributes)
  }

  /** `${key}=${value}` */
  function PairText(p: (string, string)): string
  {
    p.0 + "=" + p.1
  }

  function PairTexts(ps: seq<(string, string)>): seq<string>
  {
    seq(|ps|, i requires 0 <= i < |ps| => PairText(ps[i]))
  }

  /** The link `updateDigitalLink` builds. */
  function ComposeLink(s: LinkInput): string
  {
    Head(s) + QualifierPath(s, s.qualifiers)
    + (if QueryPresent(s) then "?" else "")
    + Join(PairTexts(QueryParams(s)), '&')
  }

  /** The grammar start rule `updateDigitalLink` validates the link with. */
  function StartRule(link: string): string
  {
    if Includes(link, CANONICAL_MARKER) then CANONICAL_RULE else CUSTOM_RULE
  }

  // ---------------------------------------------------------------------
  // Reading a link back

  /** The path a link is expected to have, split at '/'. */
  function QualifierSegments(s: LinkInput, fields: seq<Field>): seq<string>
    decreases |fields|
  {
    if fields == [] then []
    else
      QualifierSegments(s, fields[..|fields| - 1]) + SegmentParts(s, fields[|fields| - 1])
  }

  /** The path segments one key qualifier adds: its code and value, or none when the value is empty. */
  function SegmentParts(s: LinkInput, f: Field): seq<string>
  {
    if f.value != "" then [LinkCode(s, f.code), f.value] else []
  }

  function PathSegments(s: LinkInput): seq<string>
  {
    ["https:", "", s.domainUrl, LinkCode(s, s.identifierCode), s.identifierValue]
    + QualifierSegments(s, s.qualifiers)
  }

  /** A link split into its '/'-separated path and its '&'-separated `key=value` query. */
  datatype ParsedLink = ParsedLink(segments: seq<string>, query: Option<seq<(string, string)>>)

  /** Splits a `key=value` text at its first '='. */
  function ParsePair(t: string): (string, string)
  {
    var k := IndexOf(t, '=');
    if k < |t| then (t[..k], t[k + 1..]) else (t, "")
  }

  function ParsePairs(ts: seq<string>): seq<(string, string)>
  {
    seq(|ts|, i requires 0 <= i < |ts| => ParsePair(ts[i]))
  }

  /** Everything before the first '?' is path, everything after it is query. */
  function ParseLink(link: string): ParsedLink
  {
    var k := IndexOf(link, '?');
    ParsedLink(Split(link[..k], '/'),
               if k < |link| then Some(ParsePairs(Split(link[k + 1..], '&'))) else None)
  }

  /** No path segment holds '/' or '?'. */
  predicate PathUnreserved(s: LinkInput)
  {
    forall i :: 0 <= i < |PathSegments(s)| ==> '/' !in PathSegments(s)[i] && '?' !in PathSegments(s)[i]
  }

  /** No query key holds '&' or '=', and no query value holds '&'. */
  predicate QueryUnreserved(s: LinkInput)
  {
    forall i :: 0 <= i < |QueryParams(s)| ==>
      '&' !in QueryParams(s)[i].0 && '=' !in QueryParams(s)[i].0 && '&' !in QueryParams(s)[i].1
  }

  // ---------------------------------------------------------------------
  // Properties of the composed link

  /** Key qualifier contributions concatenate in list order. */
  lemma {:induction false} QualifierPathAppend(s: LinkInput, a: seq<Field>, b: seq<Field>)
    ensures QualifierPath(s, a + b) == QualifierPath(s, a) + QualifierPath(s, b)
    decreases |b|
  {
    if b == [] {
      assert a + b == a;
    } else {
      var b' := b[..|b| - 1];
      var last := b[|b| - 1];
      QualifierPathAppend(s, a, b');
      var x, y, z := QualifierPath(s, a), QualifierPath(s, b'), QualifierSegment(s, last);
      assert QualifierPath(s, a + b) == QualifierPath(s, a + b') + z by {
        assert (a + b)[..|a + b| - 1] == a + b';
        assert (a + b)[|a + b| - 1] == last;
      }
      assert QualifierPath(s, b) == y + z;
      AppendAssoc(x, y, z);
    }
  }

  /**
   * Regrouping a concatenation. Dafny knows this, but stating it as a call
   * keeps the sequence axioms out of the callers' larger proofs.
   */
  lemma AppendAssoc(x: string, y: string, z: string)
    ensures (x + y) + z == x + (y + z)
  {
  }

  /** GS1 attribute pairs concatenate in list order. */
  lemma {:induction false} AttributePairsAppend(a: seq<Field>, b: seq<Field>)
    ensures AttributePairs(a + b) == AttributePairs(a) + AttributePairs(b)
    decreases |b|
  {
    if b == [] {
      assert a + b == a;
    } else {
      var b' := b[..|b| - 1];
      var f := b[|b| - 1];
      var z := if f.value != "" then [(f.code, f.value)] else [];
      assert AttributePairs(a + b) == AttributePairs(a + b') + z by {
        assert (a + b)[..|a + b| - 1] == a + b';
        assert (a + b)[|a + b| - 1] == f;
      }
      assert AttributePairs(b) == AttributePairs(b') + z;
      AttributePairsAppend(a, b');
      PairsAssoc(AttributePairs(a), AttributePairs(b'), z);
    }
  }

  /** `AppendAssoc` for lists of query pairs. */
  lemma PairsAssoc(x: seq<(string, string)>, y: seq<(string, string)>, z: seq<(string, string)>)
    ensures (x + y) + z == x + (y + z)
  {
  }

  /** Custom pairs concatenate in insertion order. */
  lemma {:induction false} CustomPairsAppend(a: seq<CustomAttribute>, b: seq<CustomAttribute>)
    ensures CustomPairs(a + b) == CustomPairs(a) + CustomPairs(b)
    decreases |b|
  {
    if b == [] {
      assert a + b == a;
    } else {
      var b' := b[..|b| - 1];
      var c := b[|b| - 1];
      var z := if c.key != "" && c.value != "" then [(c.key, c.value)] else [];
      assert CustomPairs(a + b) == CustomPairs(a + b') + z by {
        assert (a + b)[..|a + b| - 1] == a + b';
        assert (a + b)[|a + b| - 1] == c;
      }
      assert CustomPairs(b) == CustomPairs(b') + z;
      CustomPairsAppend(a, b');
      PairsAssoc(CustomPairs(a), CustomPairs(b'), z);
    }
  }

  /**
   * A GS1 attribute pair is exactly an attribute with a non-empty value,
   * written with its own AI code (never an alias).
   */
  lemma {:induction false} AttributePairsMembers(fields: seq<Field>, p: (string, string))
    ensures p in AttributePairs(fields) <==> Field(p.0, p.1) in fields && p.1 != ""
    decreases |fields|
  {
    if fields != [] {
      var init := fields[..|fields| - 1];
      AttributePairsMembers(init, p);
      assert fields == init + [fields[|fields| - 1]];
    }
  }

  /** A custom pair is exactly a custom row with both a key and a value. */
  lemma {:induction false} CustomPairsMembers(custom: seq<CustomAttribute>, p: (string, string))
    ensures p in CustomPairs(custom) <==> CustomAttribute(p.0, p.1) in custom && p.0 != "" && p.1 != ""
    decreases |custom|
  {
    if custom != [] {
      var init := custom[..|custom| - 1];
      CustomPairsMembers(init, p);
      assert custom == init + [custom[|custom| - 1]];
    }
  }

  /** `queryPresent` holds exactly when there is at least one query pair. */
  lemma QueryPresentIffParams(s: LinkInput)
    ensures QueryPresent(s) <==> QueryParams(s) != []
  {
    if exists i :: 0 <= i < |s.attributes| && s.attributes[i].value != "" {
      var i :| 0 <= i < |s.attributes| && s.attributes[i].value != "";
      AttributePairsMembers(s.attributes, (s.attributes[i].code, s.attributes[i].value));
    }
    if CustomAttributesSpecified(s.customAttributes) {
      var i :| 0 <= i < |s.customAttributes| && s.customAttributes[i].key != "" && s.customAttributes[i].value != "";
      var a := s.customAttributes[i];
      CustomPairsMembers(s.customAttributes, (a.key, a.value));
    }
    if QueryParams(s) != [] {
      var p := QueryParams(s)[0];
      if p in AttributePairs(s.attributes) {
        AttributePairsMembers(s.attributes, p);
        var i :| 0 <= i < |s.attributes| && s.attributes[i] == Field(p.0, p.1);
      } else {
        CustomPairsMembers(s.customAttributes, p);
        var i :| 0 <= i < |s.customAttributes| && s.customAttributes[i] == CustomAttribute(p.0, p.1);
      }
    }
  }

  /** One key qualifier's text extends a '/'-joined list by its segments. */
  lemma SegmentJoin(s: LinkInput, done: seq<string>, f: Field)
    requires |done| > 0
    ensures Join(done, '/') + QualifierSegment(s, f) == Join(done + SegmentParts(s, f), '/')
  {
    if f.value != "" {
      var code, j := LinkCode(s, f.code), Join(done, '/');
      assert Join(done + [code] + [f.value], '/') == j + "/" + code + "/" + f.value by {
        JoinSnoc(done, code, '/');
        JoinSnoc(done + [code], f.value, '/');
      }
      assert j + QualifierSegment(s, f) == j + "/" + code + "/" + f.value by {
        assert QualifierSegment(s, f) == "/" + code + "/" + f.value;
        AppendAssoc(j, "/" + code + "/", f.value);
        AppendAssoc(j, "/" + code, "/");
        AppendAssoc(j, "/", code);
      }
      assert done + [code] + [f.value] == done + SegmentParts(s, f);
    } else {
      assert done + [] == done;
    }
  }

  /** Joining any non-empty prefix of segments with the qualifier path gives one '/'-joined list. */
  lemma {:induction false} QualifierPathJoin(s: LinkInput, pre: seq<string>, fields: seq<Field>)
    requires |pre| > 0
    ensures Join(pre, '/') + QualifierPath(s, fields) == Join(pre + QualifierSegments(s, fields), '/')
    decreases |fields|
  {
    if fields == [] {
      assert pre + [] == pre;
    } else {
      var init := fields[..|fields| - 1];
      var f := fields[|fields| - 1];
      var done := pre + QualifierSegments(s, init);
      var z := QualifierSegment(s, f);
      assert Join(pre, '/') + QualifierPath(s, fields) == Join(done, '/') + z by {
        QualifierPathJoin(s, pre, init);
        AppendAssoc(Join(pre, '/'), QualifierPath(s, init), z);
      }
      SegmentJoin(s, done, f);
      assert done + SegmentParts(s, f) == pre + QualifierSegments(s, fields);
    }
  }

  /** The path of the composed link is its path segments joined by '/'. */
  lemma PathIsJoinedSegments(s: LinkInput)
    ensures Head(s) + QualifierPath(s, s.qualifiers) == Join(PathSegments(s), '/')
  {
    var code := LinkCode(s, s.identifierCode);
    var p1 := ["https:"];
    var p2 := p1 + [""];
    var p3 := p2 + [s.domainUrl];
    var p4 := p3 + [code];
    var p5 := p4 + [s.identifierValue];
    JoinSnoc(p1, "", '/');
    JoinSnoc(p2, s.domainUrl, '/');
    JoinSnoc(p3, code, '/');
    JoinSnoc(p4, s.identifierValue, '/');
    assert Join(p2, '/') == "https:/";
    assert Join(p3, '/') == "https://" + s.domainUrl;
    assert Join(p5, '/') == Head(s);
    assert p5 == ["https:", "", s.domainUrl, code, s.identifierValue];
    QualifierPathJoin(s, p5, s.qualifiers);
  }

  /** Each `key=value` text splits back into its pair. */
  lemma ParsePairsOfTexts(ps: seq<(string, string)>)
    requires forall i :: 0 <= i < |ps| ==> '=' !in ps[i].0
    ensures ParsePairs(PairTexts(ps)) == ps
  {
    forall i | 0 <= i < |ps|
      ensures ParsePair(PairText(ps[i])) == ps[i]
    {
      var (key, value) := ps[i];
      IndexOfAfter(key, '=', value);
      var t := key + "=" + value;
      assert t == key + ['='] + value;
      assert t[..|key|] == key && t[|key| + 1..] == value;
    }
  }

  /**
   * The round trip: reading the composed link back yields its path
   * segments (https:, "", domain, identifier code, identifier value, then
   * code and value of each qualifier that has a value, in catalog order)
   * and, exactly when some attribute or custom pair contributes, its
   * query pairs in order; without contributors there is no query part.
   */
  lemma ComposeParse(s: LinkInput)
    requires PathUnreserved(s) && QueryUnreserved(s)
    ensures ParseLink(ComposeLink(s)) ==
            ParsedLink(PathSegments(s), if QueryPresent(s) then Some(QueryParams(s)) else None)
  {
    var segs := PathSegments(s);
    var path := Join(segs, '/');
    PathIsJoinedSegments(s);
    JoinAvoids(segs, '/', '?');
    SplitJoin(segs, '/');
    var ps := QueryParams(s);
    var query := Join(PairTexts(ps), '&');
    var link := ComposeLink(s);
    QueryPresentIffParams(s);
    if QueryPresent(s) {
      assert link == path + ['?'] + query;
      IndexOfAfter(path, '?', query);
      assert link[..|path|] == path;
      assert link[|path| + 1..] == query;
      forall i | 0 <= i < |PairTexts(ps)| ensures '&' !in PairTexts(ps)[i] {
        assert PairTexts(ps)[i] == ps[i].0 + "=" + ps[i].1;
      }
      SplitJoin(PairTexts(ps), '&');
      ParsePairsOfTexts(ps);
    } else {
      assert link == path;
      IndexOfAbsent(path, '?');
      assert link[..|path|] == path;
    }
  }

  /**
   * The path half of the round trip, whatever the query holds: the part
   * of the composed link before its first '?' splits back into the path
   * segments.
   */
  lemma PathRoundTrip(s: LinkInput)
    requires PathUnreserved(s)
    ensures ParseLink(ComposeLink(s)).segments == PathSegments(s)
  {
    var segs := PathSegments(s);
    var path := Join(segs, '/');
    PathIsJoinedSegments(s);
    JoinAvoids(segs, '/', '?');
    SplitJoin(segs, '/');
    var query := Join(PairTexts(QueryParams(s)), '&');
    var link := ComposeLink(s);
    QueryPresentIffParams(s);
    if QueryPresent(s) {
      assert link == path + ['?'] + query;
      IndexOfAfter(path, '?', query);
    } else {
      assert link == path;
      IndexOfAbsent(path, '?');
    }
    assert link[..|path|] == path;
  }

  /** The alphanumeric box is ticked and `code` has a non-empty alias in `ALPHA_MAP`. */
  predicate HasAlias(s: LinkInput, code: string)
  {
    s.alphanumeric && code in s.alphaMap && s.alphaMap[code] != ""
  }

  /**
   * Where `mapAlphaNumeric` shows in the link read back: the identifier's
   * code segment is the alias when it has one and the box is ticked, and
   * the code itself otherwise; the verbatim identifier value follows it.
   * Each key qualifier with a value appears later as a segment written
   * the same way, followed by its value.
   */
  lemma AliasedCodeSegments(s: LinkInput)
    requires PathUnreserved(s)
    ensures |ParseLink(ComposeLink(s)).segments| >= 5
    ensures ParseLink(ComposeLink(s)).segments[4] == s.identifierValue
    ensures HasAlias(s, s.identifierCode) ==>
              ParseLink(ComposeLink(s)).segments[3] == s.alphaMap[s.identifierCode]
    ensures !HasAlias(s, s.identifierCode) ==> ParseLink(ComposeLink(s)).segments[3] == s.identifierCode
    ensures forall i :: 0 <= i < |s.qualifiers| && s.qualifiers[i].value != "" ==>
              exists k :: 5 <= k < |ParseLink(ComposeLink(s)).segments| - 1 &&
                ParseLink(ComposeLink(s)).segments[k] ==
                  (if HasAlias(s, s.qualifiers[i].code) then s.alphaMap[s.qualifiers[i].code] else s.qualifiers[i].code) &&
                ParseLink(ComposeLink(s)).segments[k + 1] == s.qualifiers[i].value
  {
    PathRoundTrip(s);
    CodeSegments(s);
  }

  /** The segment facts of `AliasedCodeSegments`, stated on the composed path segments. */
  lemma CodeSegments(s: LinkInput)
    ensures |PathSegments(s)| >= 5
    ensures PathSegments(s)[3] == LinkCode(s, s.identifierCode) && PathSegments(s)[4] == s.identifierValue
    ensures forall i :: 0 <= i < |s.qualifiers| && s.qualifiers[i].value != "" ==>
              exists k :: 5 <= k < |PathSegments(s)| - 1 &&
                PathSegments(s)[k] == LinkCode(s, s.qualifiers[i].code) && PathSegments(s)[k + 1] == s.qualifiers[i].value
  {
    var segs := PathSegments(s);
    var qs := QualifierSegments(s, s.qualifiers);
    assert segs[3] == LinkCode(s, s.identifierCode) && segs[4] == s.identifierValue;
    forall i | 0 <= i < |s.qualifiers| && s.qualifiers[i].value != ""
      ensures exists k :: 5 <= k < |segs| - 1 &&
                segs[k] == LinkCode(s, s.qualifiers[i].code) && segs[k + 1] == s.qualifiers[i].value
    {
      ValuedQualifierSegments(s, s.qualifiers, i);
      var k :| 0 <= k < |qs| - 1 && qs[k] == LinkCode(s, s.qualifiers[i].code) && qs[k + 1] == s.qualifiers[i].value;
      assert segs[5 + k] == qs[k] && segs[5 + k + 1] == qs[k + 1];
    }
  }

  /** A key qualifier with a value contributes its code segment followed by its value. */
  lemma {:induction false} ValuedQualifierSegments(s: LinkInput, fields: seq<Field>, i: nat)
    requires i < |fields| && fields[i].value != ""
    ensures exists k :: 0 <= k < |QualifierSegments(s, fields)| - 1 &&
              QualifierSegments(s, fields)[k] == LinkCode(s, fields[i].code) &&
              QualifierSegments(s, fields)[k + 1] == fields[i].value
    decreases |fields|
  {
    var init := fields[..|fields| - 1];
    var before := QualifierSegments(s, init);
    var qs := QualifierSegments(s, fields);
    assert qs == before + SegmentParts(s, fields[|fields| - 1]);
    if i == |fields| - 1 {
      var k := |before|;
      assert qs[k] == LinkCode(s, fields[i].code) && qs[k + 1] == fields[i].value;
    } else {
      assert init[i] == fields[i];
      ValuedQualifierSegments(s, init, i);
      var k :| 0 <= k < |before| - 1 && before[k] == LinkCode(s, fields[i].code) && before[k + 1] == fields[i].value;
      assert qs[k] == before[k] && qs[k + 1] == before[k + 1];
    }
  }

  /** With '?'-free path segments, the link holds a '?' exactly when some query contributor exists. */
  lemma QuestionMarkIffQuery(s: LinkInput)
    requires forall i :: 0 <= i < |PathSegments(s)| ==> '?' !in PathSegments(s)[i]
    ensures '?' in ComposeLink(s) <==> QueryPresent(s)
  {
    PathIsJoinedSegments(s);
    JoinAvoids(PathSegments(s), '/', '?');
    QueryPresentIffParams(s);
    var link := ComposeLink(s);
    if QueryPresent(s) {
      assert link[|Join(PathSegments(s), '/')|] == '?';
    } else {
      assert link == Join(PathSegments(s), '/');
    }
  }

  /** An occurrence inside the head is an occurrence in the whole link. */
  lemma OccursInHead(s: LinkInput, i: nat)
    requires OccursAt(Head(s), CANONICAL_MARKER, i)
    ensures StartRule(ComposeLink(s)) == CANONICAL_RULE
  {
    var h := Head(s) + QualifierPath(s, s.qualifiers);
    var q := h + (if QueryPresent(s) then "?" else "");
    OccursPrefix(Head(s), QualifierPath(s, s.qualifiers), CANONICAL_MARKER, i);
    OccursPrefix(h, if QueryPresent(s) then "?" else "", CANONICAL_MARKER, i);
    OccursPrefix(q, Join(PairTexts(QueryParams(s)), '&'), CANONICAL_MARKER, i);
    IncludesAt(ComposeLink(s), CANONICAL_MARKER, i);
  }

  /** With the canonical domain selected, the canonical grammar is used. */
  lemma CanonicalDomainRule(s: LinkInput)
    requires s.domainUrl == ID_GS1_URL
    ensures StartRule(ComposeLink(s)) == CANONICAL_RULE
  {
    var code := LinkCode(s, s.identifierCode);
    var a := "https://" + ID_GS1_URL;
    assert OccursAt(a, CANONICAL_MARKER, 8) by {
      assert a[8..18] == CANONICAL_MARKER;
    }
    OccursPrefix(a, "/", CANONICAL_MARKER, 8);
    OccursPrefix(a + "/", code, CANONICAL_MARKER, 8);
    OccursPrefix(a + "/" + code, "/", CANONICAL_MARKER, 8);
    OccursPrefix(a + "/" + code + "/", s.identifierValue, CANONICAL_MARKER, 8);
    OccursInHead(s, 8);
  }

  /**
   * The start rule looks at the whole text, not at the domain: a marker
   * inside the identifier value selects the canonical grammar whatever
   * domain is selected.
   */
  lemma MarkerInValueRule(s: LinkInput, i: nat)
    requires OccursAt(s.identifierValue, CANONICAL_MARKER, i)
    ensures StartRule(ComposeLink(s)) == CANONICAL_RULE
  {
    var before := "https://" + s.domainUrl + "/" + LinkCode(s, s.identifierCode) + "/";
    OccursAfter(before, s.identifierValue, CANONICAL_MARKER, i);
    OccursInHead(s, |before| + i);
  }

  /** The custom grammar is used exactly when the marker occurs nowhere in the link. */
  lemma CustomRuleIffNoMarker(link: string)
    ensures StartRule(link) == CUSTOM_RULE <==> forall i: nat :: !OccursAt(link, CANONICAL_MARKER, i)
  {
    IncludesIffOccurs(link, CANONICAL_MARKER);
  }

  /** The head of a link for the page's default GTIN on id.gs1.org, codes written numerically. */
  lemma DefaultGtinHead(s: LinkInput)
    requires s.domainUrl == ID_GS1_URL && s.identifierCode == "01" && s.identifierValue == DEFAULT_GTIN_VALUE
    requires !s.alphanumeric
    ensures Head(s) == "https://id.gs1.org/01/9780345418913"
  {
    assert LinkCode(s, "01") == "01";
  }

  /** Key qualifiers without values add nothing to the path. */
  lemma {:induction false} BlankQualifiersNoPath(s: LinkInput, fields: seq<Field>)
    requires forall j :: 0 <= j < |fields| ==> fields[j].value == ""
    ensures QualifierPath(s, fields) == ""
    decreases |fields|
  {
    if fields != [] {
      BlankQualifiersNoPath(s, fields[..|fields| - 1]);
    }
  }

  /** GS1 attributes without values give no query pairs. */
  lemma {:induction false} BlankAttributesNoPairs(fields: seq<Field>)
    requires forall j :: 0 <= j < |fields| ==> fields[j].value == ""
    ensures AttributePairs(fields) == []
    decreases |fields|
  {
    if fields != [] {
      BlankAttributesNoPairs(fields[..|fields| - 1]);
    }
  }

  /** When only attribute `i` has a value, it gives the one GS1 attribute pair. */
  lemma {:induction false} OneValuedAttributePairs(fields: seq<Field>, i: nat)
    requires i < |fields| && fields[i].value != ""
    requires forall j :: 0 <= j < |fields| && j != i ==> fields[j].value == ""
    ensures AttributePairs(fields) == [(fields[i].code, fields[i].value)]
    decreases |fields|
  {
    var init := fields[..|fields| - 1];
    if i == |fields| - 1 {
      BlankAttributesNoPairs(init);
    } else {
      assert init[i] == fields[i];
      OneValuedAttributePairs(init, i);
    }
  }

  /** Without a custom row holding both a key and a value there are no custom pairs. */
  lemma NoCustomPairs(custom: seq<CustomAttribute>)
    requires !CustomAttributesSpecified(custom)
    ensures CustomPairs(custom) == []
  {
    if CustomPairs(custom) != [] {
      CustomPairsMembers(custom, CustomPairs(custom)[0]);
    }
  }

  /**
   * One GS1 attribute with a value and no complete custom pair (the blank
   * custom rows the page keeps do not count) give a query whose text is
   * the single `code=value`.
   */
  lemma SingleAttributeQuery(s: LinkInput, i: nat)
    requires i < |s.attributes| && s.attributes[i].value != ""
    requires forall j :: 0 <= j < |s.attributes| && j != i ==> s.attributes[j].value == ""
    requires !CustomAttributesSpecified(s.customAttributes)
    ensures QueryPresent(s)
    ensures Join(PairTexts(QueryParams(s)), '&') == s.attributes[i].code + "=" + s.attributes[i].value
  {
    var f := s.attributes[i];
    OneValuedAttributePairs(s.attributes, i);
    NoCustomPairs(s.customAttributes);
    assert QueryParams(s) == [(f.code, f.value)];
    assert PairTexts(QueryParams(s)) == [PairText((f.code, f.value))];
  }

  /**
   * The page's initial link: the default GTIN on id.gs1.org, with a key
   * qualifier and a GS1 attribute left empty and the one blank custom row.
   */
  lemma DefaultGtinLink()
    ensures ComposeLink(LinkInput(ID_GS1_URL, "01", DEFAULT_GTIN_VALUE, false, map[],
                                  [Field("22", "")], [Field("10", "")], [CustomAttribute("", "")]))
            == "https://id.gs1.org/01/9780345418913"
  {
    var s := LinkInput(ID_GS1_URL, "01", DEFAULT_GTIN_VALUE, false, map[],
                       [Field("22", "")], [Field("10", "")], [CustomAttribute("", "")]);
    assert Head(s) == "https://id.gs1.org/01/9780345418913" by { DefaultGtinHead(s); }
    assert QualifierPath(s, s.qualifiers) == "" by { BlankQualifiersNoPath(s, s.qualifiers); }
    assert !QueryPresent(s) && QueryParams(s) == [] by {
      BlankAttributesNoPairs(s.attributes);
      assert !CustomAttributesSpecified(s.customAttributes) by {
        assert s.customAttributes[0].key == "";
      }
      NoCustomPairs(s.customAttributes);
    }
    assert Join(PairTexts([]), '&') == "";
  }

  /**
   * The same page with batch/lot `ABC123` (AI 10) typed in, serial number
   * (AI 21) still empty: one query pair after '?'.
   */
  lemma BatchAttributeLink()
    ensures ComposeLink(LinkInput(ID_GS1_URL, "01", DEFAULT_GTIN_VALUE, false, map[], [Field("22", "")],
                                  [Field("10", "ABC123"), Field("21", "")], [CustomAttribute("", "")]))
            == "https://id.gs1.org/01/9780345418913?10=ABC123"
  {
    var s := LinkInput(ID_GS1_URL, "01", DEFAULT_GTIN_VALUE, false, map[], [Field("22", "")],
                       [Field("10", "ABC123"), Field("21", "")], [CustomAttribute("", "")]);
    DefaultGtinHead(s);
    BlankQualifiersNoPath(s, s.qualifiers);
    assert !CustomAttributesSpecified(s.customAttributes) by {
      assert s.customAttributes[0].key == "";
    }
    SingleAttributeQuery(s, 0);
    assert ComposeLink(s) == "https://id.gs1.org/01/9780345418913" + "" + "?" + "10=ABC123";
  }
}

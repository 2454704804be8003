/**
 * The keyword tagger `tag_policy_element`: a policy text is tagged with every
 * plan element one of whose keywords occurs in the lower-cased text, in the
 * order of the keyword table, or with "Other" when none does.
 */
module PolicyFilter {
  import opened Text

  /** One plan element and its keywords. */
  type Element = (string, seq<string>)

  /** `ELEMENT_KEYWORDS`, in its insertion order; "landslide" is listed twice under Safety, as in the table. */
  const ElementKeywords: seq<Element> := [
    ("Land Use", ["rural", "land use", "distance", "zoning", "slope", "development", "agriculture", "urban",
                  "reserve", "line", "boundary", "buffer", "ordinance", "gateway", "road", "building"]),
    ("Circulation", ["circulation", "travel", "transportation", "route", "traffic", "pedestrian", "vehic", "rider",
                     "flexible", "parking", "bike", "trail", "connection", "transit", "walk", "shuttle"]),
    ("Safety", ["safety", "evacuation", "fire", "wildfire", "emergency", "danger", "hazard", "fuel", "flood", "dam",
                "tank", "landslide", "voltage", "electric", "displace", "care", "shelter", "storm", "geolog", "fault",
                "seismic", "liquefaction", "landslide", "safe", "respond", "operat", "assist", "leak"]),
    ("Wildfire", ["emergency", "evacuat", "fire", "hazard", "disaster", "fuel", "flood", "resistant", "equipment",
                  "suppression", "hydrant", "defensible", "preserv", "protection", "sprinkler", "danger", "gas",
                  "ignition"]),
    ("Noise", ["noise", "sensitive", "exposure", "generat", "barrier", "sound", "separat", "reduction", "NLR"]),
    ("Housing", ["housing", "residential", "apartments", "dwelling", "family", "story", "unit", "density",
                 "affordable", "rent", "condo", "income", "loan", "living", "habita", "homeless", "shelter"]),
    ("Agriculture", ["agriculture", "farming", "crops", "farm"])
  ]

  const OtherTag: string := "Other"

  /** `any(kw in text_lower for kw in keywords)`: substring matching, not word matching. */
  predicate AnyKeyword(lowered: string, keywords: seq<string>) {
    exists k :: 0 <= k < |keywords| && Contains(lowered, keywords[k])
  }

  /**
   * The positions, below `n`, of the table's elements one of whose keywords
   * occurs in `lowered`: increasing, and exactly the matching ones.
   */
  function MatchIndices(lowered: string, table: seq<Element>, n: nat): (idx: seq<nat>)
    requires n <= |table|
    ensures forall a :: 0 <= a < |idx| ==> idx[a] < n
    ensures forall a, b :: 0 <= a < b < |idx| ==> idx[a] < idx[b]
    ensures forall e :: 0 <= e < n ==> (e in idx <==> AnyKeyword(lowered, table[e].1))
  {
    if n == 0 then []
    else MatchIndices(lowered, table, n - 1) + (if AnyKeyword(lowered, table[n - 1].1) then [n - 1] else [])
  }

  /** The names of the table's elements at the given positions. */
  function NamesAt(table: seq<Element>, idx: seq<nat>): (r: seq<string>)
    requires forall a :: 0 <= a < |idx| ==> idx[a] < |table|
    ensures |r| == |idx| && forall a :: 0 <= a < |idx| ==> r[a] == table[idx[a]].0
  {
    seq(|idx|, a requires 0 <= a < |idx| => table[idx[a]].0)
  }

  /** The names of the matching elements, in table order. */
  function Matching(lowered: string, table: seq<Element>): seq<string> {
    NamesAt(table, MatchIndices(lowered, table, |table|))
  }

  /** `tag_policy_element(text)`. */
  function Tags(text: string): seq<string> {
    var tags := Matching(Lower(text), ElementKeywords);
    if tags == [] then [OtherTag] else tags
  }

  /** `tag_policy_element(text)`, run over the table. */
  method TagPolicyElement(text: string) returns (tags: seq<string>)
    ensures tags == Tags(text)
  {
    var textLower := Lower(text);
    tags := CollectTags(textLower, ElementKeywords);
    if tags == [] {
      tags := [OtherTag];
    }
  }

  /** The loop of `tag_policy_element` over the elements of a table. */
  method CollectTags(textLower: string, table: seq<Element>) returns (tags: seq<string>)
    ensures tags == Matching(textLower, table)
  {
    tags := [];
    for e := 0 to |table|
      invariant tags == NamesAt(table, MatchIndices(textLower, table, e))
    {
      var (element, keywords) := table[e];
      if AnyKeyword(textLower, keywords) {
        NamesAtSnoc(table, MatchIndices(textLower, table, e), e);
        tags := tags + [element];
      }
    }
  }

  lemma NamesAtSnoc(table: seq<Element>, idx: seq<nat>, e: nat)
    requires e < |table| && forall a :: 0 <= a < |idx| ==> idx[a] < |table|
    ensures NamesAt(table, idx + [e]) == NamesAt(table, idx) + [table[e].0]
  {
  }

  // ---------------------------------------------------------------- properties

  predicate DistinctNames(table: seq<Element>) {
    forall a, b :: 0 <= a < b < |table| ==> table[a].0 != table[b].0
  }

  /** The element names are distinct, and none of them is "Other". */
  lemma TableNames()
    ensures DistinctNames(ElementKeywords)
    ensures forall a :: 0 <= a < |ElementKeywords| ==> ElementKeywords[a].0 != OtherTag
  {
  }

  /** With distinct names, an element is listed exactly when one of its keywords occurs. */
  lemma MatchingHas(lowered: string, table: seq<Element>, e: nat)
    requires DistinctNames(table) && e < |table|
    ensures table[e].0 in Matching(lowered, table) <==> AnyKeyword(lowered, table[e].1)
  {
    var idx := MatchIndices(lowered, table, |table|);
    var names := NamesAt(table, idx);
    if table[e].0 in names {
      var a :| 0 <= a < |names| && names[a] == table[e].0;
      assert idx[a] == e;
    }
    if e in idx {
      var a :| 0 <= a < |idx| && idx[a] == e;
      assert names[a] == table[e].0;
    }
  }

  /** Nothing is listed exactly when no element has a keyword that occurs; only element names are listed. */
  lemma MatchingEmpty(lowered: string, table: seq<Element>)
    ensures Matching(lowered, table) == [] <==> forall e :: 0 <= e < |table| ==> !AnyKeyword(lowered, table[e].1)
    ensures forall x :: x in Matching(lowered, table) ==> exists e :: 0 <= e < |table| && x == table[e].0
  {
    var idx := MatchIndices(lowered, table, |table|);
    if idx != [] {
      assert idx[0] in idx;
    }
    forall x | x in Matching(lowered, table) ensures exists e :: 0 <= e < |table| && x == table[e].0 {
      var a :| 0 <= a < |idx| && Matching(lowered, table)[a] == x;
    }
  }

  /** With distinct names, no name is listed twice. */
  lemma MatchingDistinct(lowered: string, table: seq<Element>)
    requires DistinctNames(table)
    ensures var r := Matching(lowered, table);
      forall a, b :: 0 <= a < b < |r| ==> r[a] != r[b]
  {
  }

  /** The tagger never returns an empty list. */
  lemma TagsNonEmpty(text: string)
    ensures Tags(text) != []
  {
  }

  /** An element is a tag exactly when one of its keywords is a substring of the lower-cased text. */
  lemma TagMembership(text: string, e: nat)
    requires e < |ElementKeywords|
    ensures ElementKeywords[e].0 in Tags(text) <==> AnyKeyword(Lower(text), ElementKeywords[e].1)
  {
    TableNames();
    MatchingHas(Lower(text), ElementKeywords, e);
  }

  /**
   * The result is `["Other"]` exactly when no element has a keyword in the
   * lower-cased text, and "Other" never stands beside an element tag.
   */
  lemma TagsOther(text: string)
    ensures Tags(text) == [OtherTag] <==> forall e :: 0 <= e < |ElementKeywords| ==> !AnyKeyword(Lower(text), ElementKeywords[e].1)
    ensures OtherTag in Tags(text) ==> Tags(text) == [OtherTag]
  {
    TableNames();
    MatchingEmpty(Lower(text), ElementKeywords);
  }

  /** The tags name elements at increasing table positions, so each at most once. */
  lemma TagsOrdered(text: string)
    ensures var idx := MatchIndices(Lower(text), ElementKeywords, |ElementKeywords|);
      idx != [] ==> Tags(text) == NamesAt(ElementKeywords, idx)
    ensures forall a, b :: 0 <= a < b < |Tags(text)| ==> Tags(text)[a] != Tags(text)[b]
  {
    TableNames();
    MatchingDistinct(Lower(text), ElementKeywords);
  }

  /** A lower-cased text holds no upper-case letter. */
  lemma LowerHasNoCapital(text: string, i: nat)
    requires i < |Lower(text)|
    ensures !('A' <= Lower(text)[i] <= 'Z')
  {
  }

  /** Matching lower-cases the text only: a keyword with a capital letter, such as "NLR", never matches. */
  lemma CapitalKeywordNeverMatches(text: string, kw: string, c: nat)
    requires c < |kw| && 'A' <= kw[c] <= 'Z'
    ensures !Contains(Lower(text), kw)
  {
    var l := Lower(text);
    forall i: nat | i <= |l| ensures !OccursAt(l, kw, i) {
      if i + |kw| <= |l| {
        LowerHasNoCapital(text, i + c);
        assert l[i..i + |kw|][c] == l[i + c];
      }
    }
  }

  lemma NoiseKeywordNLRNeverMatches(text: string)
    ensures ElementKeywords[4].1[8] == "NLR" && !Contains(Lower(text), "NLR")
  {
    CapitalKeywordNeverMatches(text, "NLR", 0);
  }
}

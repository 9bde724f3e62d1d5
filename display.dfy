/**
 * What the generator page shows, apart from the link itself: catalog
 * labels cut to a fixed width, the GS1 data attribute search, and which
 * rows of the key qualifier and GS1 attribute tables are visible.
 */
module Display {
  import opened Text
  import opened Catalog

  /**
   * `truncate`: a label shorter than `MAX_LENGTH` is shown whole; a longer
   * one is cut to its first `MAX_LENGTH - 2` characters followed by "...".
   */
  function Truncate(s: string): (r: string)
    ensures |s| < MAX_LENGTH ==> r == s
    ensures |s| >= MAX_LENGTH ==> |r| == MAX_LENGTH + 1
    ensures |s| >= MAX_LENGTH ==> r[..MAX_LENGTH - 2] == s[..MAX_LENGTH - 2] && r[MAX_LENGTH - 2..] == "..."
  {
    if |s| < MAX_LENGTH then s else s[..MAX_LENGTH - 2] + "..."
  }

  /** A shown label is never longer than `MAX_LENGTH + 1`, and truncating it again changes nothing. */
  lemma TruncateIdempotent(s: string)
    ensures |Truncate(s)| <= MAX_LENGTH + 1
    ensures Truncate(Truncate(s)) == Truncate(s)
  {
    if |s| >= MAX_LENGTH {
      var r := Truncate(s);
      assert r[..MAX_LENGTH - 2] + "..." == r;
    }
  }

  /**
   * The search test of `searchAiList` for one entry: the lower-cased
   * label contains the query, or the code is the query. `lower` stands
   * for JavaScript's `toLowerCase`.
   */
  predicate Matches(e: CatalogEntry, query: string, lower: string -> string)
  {
    Includes(lower(e.labelText), query) || e.code == query
  }

  /** The positions of the matching entries, in list order. */
  function MatchingIndices(ais: seq<CatalogEntry>, query: string, lower: string -> string): (r: seq<nat>)
    ensures forall k :: 0 <= k < |r| ==> r[k] < |ais|
    ensures forall a, b :: 0 <= a < b < |r| ==> r[a] < r[b]
    ensures forall i :: 0 <= i < |ais| ==> (i in r <==> Matches(ais[i], query, lower))
    decreases |ais|
  {
    if ais == [] then []
    else
      var n := |ais| - 1;
      var init := MatchingIndices(ais[..n], query, lower);
      assert forall i :: 0 <= i < n ==> ais[..n][i] == ais[i];
      init + (if Matches(ais[n], query, lower) then [n] else [])
  }

  /**
   * `searchAiList`: no results for an empty query; otherwise exactly the
   * entries that match, each once and in `AI_LIST` order (given by their
   * positions in the list).
   */
  function SearchAiList(ais: seq<CatalogEntry>, query: string, lower: string -> string): (r: seq<nat>)
    ensures query == "" ==> r == []
    ensures forall k :: 0 <= k < |r| ==> r[k] < |ais|
    ensures forall a, b :: 0 <= a < b < |r| ==> r[a] < r[b]
    ensures forall i :: 0 <= i < |ais| ==> (i in r <==> query != "" && Matches(ais[i], query, lower))
  {
    if query == "" then [] else MatchingIndices(ais, query, lower)
  }

  /** The first pass of both visibility updates: a row stays visible exactly when it has a value. */
  method RowsWithValues(fields: seq<Field>) returns (visible: seq<bool>)
    ensures |visible| == |fields|
    ensures forall i :: 0 <= i < |fields| ==> visible[i] == (fields[i].value != "")
  {
    visible := [];
    var i := 0;
    while i < |fields|
      invariant i <= |fields| && |visible| == i
      invariant forall k :: 0 <= k < i ==> visible[k] == (fields[k].value != "")
    {
      visible := visible + [fields[i].value != ""];
      i := i + 1;
    }
  }

  /**
   * `updateVisibleKeyQualifiers`: first every row is hidden unless it
   * has a value, then the rows of the key qualifiers relevant to the
   * selected identifier are shown.
   */
  method VisibleKeyQualifiers(quals: seq<Field>, identifier: IdentifierDef) returns (visible: seq<bool>)
    ensures |visible| == |quals|
    ensures forall i :: 0 <= i < |quals| ==>
              visible[i] == (quals[i].value != "" || quals[i].code in identifier.keyQualifiers)
  {
    visible := RowsWithValues(quals);
    var j := 0;
    while j < |quals|
      invariant j <= |quals| && |visible| == |quals|
      invariant forall k :: 0 <= k < j ==>
                  visible[k] == (quals[k].value != "" || quals[k].code in identifier.keyQualifiers)
      invariant forall k :: j <= k < |quals| ==> visible[k] == (quals[k].value != "")
    {
      if quals[j].code in identifier.keyQualifiers {
        visible := visible[j := true];
      }
      j := j + 1;
    }
  }

  /**
   * The search box handler: first every GS1 attribute row is hidden
   * unless it has a value, then the rows `searchAiList` returns are shown.
   */
  method VisibleAttributes(ais: seq<CatalogEntry>, fields: seq<Field>, query: string, lower: string -> string)
    returns (visible: seq<bool>)
    requires |fields| == |ais|
    ensures |visible| == |ais|
    ensures forall i :: 0 <= i < |ais| ==>
              visible[i] == (fields[i].value != "" || (query != "" && Matches(ais[i], query, lower)))
  {
    visible := RowsWithValues(fields);
    var results := SearchAiList(ais, query, lower);
    var j := 0;
    while j < |results|
      invariant j <= |results| && |visible| == |ais|
      invariant forall k :: 0 <= k < |ais| ==> visible[k] == (fields[k].value != "" || k in results[..j])
    {
      assert results[..j + 1] == results[..j] + [results[j]];
      visible := visible[results[j] := true];
      j := j + 1;
    }
    assert results[..j] == results;
  }
}

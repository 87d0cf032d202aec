/** `renderHighlightedName`: the split of a result's name around the first
    case-insensitive occurrence of the query. The emphasis markup itself is
    presentation; what matters is which three pieces are produced. */
module Highlight {
  import opened Text

  /** The name unchanged, or the name cut into the text before the match,
      the matched span (rendered in bold) and the text after it. */
  datatype Highlighted =
    | Unmatched(text: string)
    | Matched(prefix: string, highlighted: string, suffix: string)

  function RenderHighlightedName(name: string, query: string): (r: Highlighted)
    ensures r.Unmatched? <==> !Occurs(Lower(name), Lower(query))
    ensures r.Unmatched? ==> r.text == name
    ensures r.Matched? ==> r.prefix + r.highlighted + r.suffix == name
    ensures r.Matched? ==> MatchAt(Lower(name), Lower(query), |r.prefix|)
    ensures r.Matched? ==> forall j :: 0 <= j < |r.prefix| ==> !MatchAt(Lower(name), Lower(query), j)
    ensures r.Matched? ==> |r.highlighted| == |query| && Lower(r.highlighted) == Lower(query)
  {
    var startIndex := IndexOf(Lower(name), Lower(query));
    if startIndex == -1 then Unmatched(name)
    else
      var endIndex := startIndex + |query|;
      LowerSlice(name, startIndex, endIndex);
      assert name == name[..startIndex] + name[startIndex..endIndex] + name[endIndex..];
      Matched(name[..startIndex], name[startIndex..endIndex], name[endIndex..])
  }

  /** The text a reader sees, markup removed. */
  function Shown(h: Highlighted): string {
    match h
    case Unmatched(text) => text
    case Matched(prefix, highlighted, suffix) => prefix + highlighted + suffix
  }

  /** Highlighting never changes the displayed characters, in either case. */
  lemma RenderKeepsText(name: string, query: string)
    ensures Shown(RenderHighlightedName(name, query)) == name
  {
  }

  /** The highlighted span is exactly the characters of the name found by a
      case-insensitive search, in the name's own casing. */
  lemma HighlightedIsSlice(name: string, query: string)
    requires Occurs(Lower(name), Lower(query))
    ensures var r := RenderHighlightedName(name, query);
      r.Matched? &&
      |r.prefix| == IndexOf(Lower(name), Lower(query)) &&
      r.highlighted == name[|r.prefix|..|r.prefix| + |query|]
  {
    var r := RenderHighlightedName(name, query);
    assert name == r.prefix + r.highlighted + r.suffix;
    assert name[|r.prefix|..|r.prefix| + |query|] == r.highlighted;
  }
}

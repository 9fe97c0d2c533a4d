/** What the text generator knows about a placed object: its expression
    hierarchy (from the most general word to the most specific one) and
    the default word used to refer to it. */
module NodeInfo {

  /** `NodeInfoProvider`: the words for an object, most general first,
      its node type and how important it is to mention. */
  datatype NodeInfoProvider = NodeInfoProvider(hierarchy: seq<string>, nodeType: string, importance: real)

  /** The word of an object whose hierarchy is empty; such objects are
      left out of descriptions. */
  const Ignored: string := "IGNORED"

  /** `GetDefaultExpression`: the next-to-most-specific word of the
      hierarchy, the only word of a one-word hierarchy, or `Ignored`. */
  function DefaultExpression(hierarchy: seq<string>): (r: string)
    ensures |hierarchy| == 0 ==> r == Ignored
    ensures |hierarchy| > 0 ==> r in hierarchy
  {
    if |hierarchy| == 0 then Ignored
    else if |hierarchy| == 1 then hierarchy[0]
    else hierarchy[|hierarchy| - 2]
  }

  /** A one-word hierarchy is its own default, and adding a more specific
      word moves the default down one level: the default of h + [w] is
      the last word of h. */
  lemma DefaultAfterRefinement(hierarchy: seq<string>, w: string)
    ensures DefaultExpression([w]) == w
    ensures |hierarchy| > 0 ==> DefaultExpression(hierarchy + [w]) == hierarchy[|hierarchy| - 1]
  {
  }
}

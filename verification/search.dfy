/** The search boxes of the list pages: an item stays when its text,
    lowercased, includes the search term, lowercased. */
module Search {
  import Text
  import Lists

  /** `text.toLowerCase().includes(term.toLowerCase())`. */
  predicate Matches(text: string, term: string) {
    Text.Contains(Text.Lower(text), Text.Lower(term))
  }

  /** The filter the list keeps for `term`, reading each item's text with
      `key`. */
  function Keep<T(!new)>(key: T -> string, term: string): (keep: T -> bool)
    ensures forall x :: keep(x) == Matches(key(x), term)
  {
    (x: T) => Matches(key(x), term)
  }

  /** The items whose text matches the term, in list order. */
  function FilterBy<T(==,!new)>(items: seq<T>, key: T -> string, term: string): (r: seq<T>)
    ensures forall i :: 0 <= i < |r| ==> r[i] in items && Matches(key(r[i]), term)
    ensures forall i :: 0 <= i < |items| && Matches(key(items[i]), term) ==> items[i] in r
    ensures Lists.IsSubsequence(r, items)
  {
    Lists.Filter(items, Keep(key, term))
  }

  lemma OccursWhenMatches(text: string, term: string)
    requires Matches(text, term)
    ensures exists i :: Text.OccursAt(Text.Lower(text), Text.Lower(term), i)
  {
    Text.ContainsImpliesOccurs(Text.Lower(text), Text.Lower(term));
  }

  lemma MatchesWhenOccurs(text: string, term: string)
    requires exists i :: Text.OccursAt(Text.Lower(text), Text.Lower(term), i)
    ensures Matches(text, term)
  {
    var hay, needle := Text.Lower(text), Text.Lower(term);
    var i :| Text.OccursAt(hay, needle, i);
    Text.OccursImpliesContains(hay, needle, i);
  }

  /** Matching means the lowercased term occurs somewhere in the lowercased
      text. */
  lemma MatchesIffOccurs(text: string, term: string)
    ensures Matches(text, term) <==> exists i :: Text.OccursAt(Text.Lower(text), Text.Lower(term), i)
  {
    if Matches(text, term) {
      OccursWhenMatches(text, term);
    }
    if exists i :: Text.OccursAt(Text.Lower(text), Text.Lower(term), i) {
      MatchesWhenOccurs(text, term);
    }
  }

  /** An empty search keeps every item, in order. */
  lemma EmptyTermKeepsAll<T(!new)>(items: seq<T>, key: T -> string)
    ensures FilterBy(items, key, "") == items
  {
    forall i | 0 <= i < |items|
      ensures Keep(key, "")(items[i])
    {
      Text.ContainsEmpty(Text.Lower(key(items[i])));
    }
    Lists.FilterKeepsAll(items, Keep(key, ""));
  }

  /** The letter case of the term makes no difference. */
  lemma TermCaseIrrelevant<T(!new)>(items: seq<T>, key: T -> string, term: string)
    ensures FilterBy(items, key, Text.Lower(term)) == FilterBy(items, key, term)
  {
    Text.LowerIdempotent(term);
    Lists.FilterAgreeing(items, Keep(key, Text.Lower(term)), Keep(key, term));
  }

  /** Narrowing a search with more text keeps a sub-list: what matches a
      longer term also matches its prefix. */
  lemma {:induction false} LongerTermMatchesLess(text: string, term: string, more: string)
    requires Matches(text, term + more)
    ensures Matches(text, term)
  {
    var hay := Text.Lower(text);
    Text.ContainsImpliesOccurs(hay, Text.Lower(term + more));
    var i :| Text.OccursAt(hay, Text.Lower(term + more), i);
    assert Text.Lower(term + more)[..|term|] == Text.Lower(term);
    assert hay[i..i + |term|] == Text.Lower(term + more)[..|term|];
    Text.OccursImpliesContains(hay, Text.Lower(term), i);
  }
}

/**
 * What the client shows when both halves work together: the backend's
 * `/suggestions` list (which ignores `q`) filtered by the frontend's prefix
 * test, and the agreement and disagreement of the two `capitalize`s.
 */
module EndToEnd {
  import opened Text
  import opened Wrappers
  import Items
  import Suggestions
  import Frontend

  /** The keys, in order, that start with the query. */
  function MatchingKeys(ks: seq<string>, query: string): (r: seq<string>)
    ensures forall k :: k in r <==> k in ks && StartsWith(k, query)
    ensures IsSubsequence(r, ks)
  {
    if ks == [] then []
    else
      assert ks == [ks[0]] + ks[1..];
      if StartsWith(ks[0], query) then [ks[0]] + MatchingKeys(ks[1..], query)
      else MatchingKeys(ks[1..], query)
  }

  /** Every copy of a matching key is kept, and no copy of any other. */
  lemma {:induction false} MatchingKeysMultiplicity(ks: seq<string>, query: string)
    ensures forall k :: multiset(MatchingKeys(ks, query))[k] ==
              if StartsWith(k, query) then multiset(ks)[k] else 0
  {
    if ks != [] {
      assert ks == [ks[0]] + ks[1..];
      MatchingKeysMultiplicity(ks[1..], query);
    }
  }

  lemma MatchingKeysCons(k: string, ks: seq<string>, query: string)
    ensures MatchingKeys([k] + ks, query)
            == (if StartsWith(k, query) then [k] else []) + MatchingKeys(ks, query)
  {
    assert ([k] + ks)[0] == k && ([k] + ks)[1..] == ks;
  }

  lemma {:induction false} FilterCapitalized(ks: seq<string>, query: string)
    requires forall k :: k in ks ==> IsLower(k)
    ensures Frontend.FilterSuggestions(Suggestions.CapitalizeAll(ks), query)
            == Suggestions.CapitalizeAll(MatchingKeys(ks, query))
  {
    if ks != [] {
      var k, t := ks[0], ks[1..];
      assert ks == [k] + t;
      assert k in ks;
      Suggestions.PyCapitalizeLowerInverse(k);
      Suggestions.CapitalizeAllCons(k, t);
      Frontend.FilterSuggestionsCons(Suggestions.PyCapitalize(k), Suggestions.CapitalizeAll(t), query);
      MatchingKeysCons(k, t, query);
      FilterCapitalized(t, query);
      Suggestions.CapitalizeAllCons(k, MatchingKeys(t, query));
    }
  }

  /** The autocomplete list for a non-blank input is exactly the backend's
      top keys that start with the normalised query, capitalized, in rank
      order (script.js:218-229 with app.py:45-54). */
  lemma AutocompleteShowsMatchingTopNames(items: seq<Items.Item>, input: string)
    requires exists i :: 0 <= i < |input| && !Frontend.IsJsWhitespace(input[i])
    ensures Frontend.FetchSuggestions(input).Request?
    ensures var q := Frontend.FetchSuggestions(input).query;
            Frontend.FilterSuggestions(Suggestions.SuggestionsOf(items), q)
            == Suggestions.CapitalizeAll(MatchingKeys(Suggestions.Keys(Suggestions.Ranked(items)), q))
  {
    Suggestions.RankedKeysLower(items);
    FilterCapitalized(Suggestions.Keys(Suggestions.Ranked(items)), Frontend.FetchSuggestions(input).query);
  }

  /** The display `capitalize` and Python's agree on lower-case names... */
  lemma CapitalizeAgreesOnLower(k: string)
    requires IsLower(k)
    ensures Frontend.Capitalize(k) == Suggestions.PyCapitalize(k)
  {
    if k != [] {
      assert Lower(k)[1..] == Lower(k[1..]);
    }
  }

  /** ...and differ on names with upper case after the first character. */
  lemma CapitalizeVariantsDiffer()
    ensures Frontend.Capitalize("aB") == "AB"
    ensures Suggestions.PyCapitalize("aB") == "Ab"
  {
    assert Lower("B") == "b";
  }

  /** Whatever the client submits is truthy for the backend, so a submitted
      item is always appended (script.js:23-25 with app.py:29-37). */
  lemma SubmittedItemsAreTruthy(input: string)
    requires Frontend.AddItemOnClick(input).Some?
    ensures Items.Truthy(Frontend.AddItemOnClick(input))
  {
  }
}

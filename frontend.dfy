/**
 * The string logic of the browser client (frontend/script.js): the
 * normalisation of the autocomplete query, the prefix filter applied to the
 * suggestions it receives, the display `capitalize`, and the guards that
 * keep blank names from being added or saved. DOM updates, timers and
 * `fetch` promise chains are outside the model; a handler's decision to send
 * a request, and what it sends, is its result.
 */
module Frontend {
  import opened Text
  import opened Wrappers

  /** ECMAScript WhiteSpace and LineTerminator code points, which
      String.prototype.trim removes. */
  predicate IsJsWhitespace(c: char) {
    || c == '\t' || c == '\U{000B}' || c == '\U{000C}' || c == ' ' || c == '\U{00A0}'
    || c == '\U{FEFF}' || c == '\U{1680}' || ('\U{2000}' <= c <= '\U{200A}')
    || c == '\U{202F}' || c == '\U{205F}' || c == '\U{3000}'
    || c == '\n' || c == '\r' || c == '\U{2028}' || c == '\U{2029}'
  }

  /** String.prototype.trim: removes whitespace at both ends; the result is
      empty exactly when the input is all whitespace. */
  function JsTrim(s: string): (r: string)
    ensures |r| <= |s|
    ensures r == [] <==> forall i :: 0 <= i < |s| ==> IsJsWhitespace(s[i])
    ensures r != [] ==> !IsJsWhitespace(r[0]) && !IsJsWhitespace(r[|r| - 1])
  {
    TrimEmpty(s, IsJsWhitespace);
    Trim(s, IsJsWhitespace)
  }

  /** `itemInput.value.trim().toLowerCase()`: lower-case, and empty exactly
      when the input is all whitespace. */
  function Query(input: string): (r: string)
    ensures IsLower(r)
    ensures |r| <= |input|
    ensures r == [] <==> forall i :: 0 <= i < |input| ==> IsJsWhitespace(input[i])
  {
    LowerIsLower(JsTrim(input));
    Lower(JsTrim(input))
  }

  /** What `fetchSuggestions` does: clear the list and stop, or request
      `/suggestions?q=<query>`. */
  datatype SuggestAction = ClearList | Request(query: string)

  /** script.js:219-225 */
  function FetchSuggestions(input: string): (a: SuggestAction)
    ensures a.ClearList? <==> forall i :: 0 <= i < |input| ==> IsJsWhitespace(input[i])
    ensures a.Request? ==> a.query == Query(input) && a.query != []
  {
    TrimEmpty(input, IsJsWhitespace);
    var q := Query(input);
    if |q| == 0 then ClearList else Request(q)
  }

  /** Lower-casing neither creates nor removes whitespace. */
  lemma LowerWhitespace(c: char)
    ensures IsJsWhitespace(LowerChar(c)) <==> IsJsWhitespace(c)
  {
  }

  /** The query is already normalised: lower-case, with nothing left to trim. */
  lemma QueryNormalised(input: string)
    ensures IsLower(Query(input))
    ensures JsTrim(Query(input)) == Query(input)
    ensures Query(Query(input)) == Query(input)
  {
    var t := JsTrim(input);
    var q := Query(input);
    LowerIsLower(t);
    var lo, hi := TrimSlice(input, IsJsWhitespace);
    if q != [] {
      LowerWhitespace(t[0]);
      LowerWhitespace(t[|t| - 1]);
    }
    TrimNoop(q, IsJsWhitespace);
  }

  /** `suggestions.filter(s => s.toLowerCase().startsWith(query))` (script.js:228) */
  function FilterSuggestions(suggestions: seq<string>, query: string): (r: seq<string>)
    ensures forall s :: s in r <==> s in suggestions && StartsWith(Lower(s), query)
    ensures IsSubsequence(r, suggestions)
  {
    if suggestions == [] then []
    else
      assert suggestions == [suggestions[0]] + suggestions[1..];
      if StartsWith(Lower(suggestions[0]), query) then
        [suggestions[0]] + FilterSuggestions(suggestions[1..], query)
      else FilterSuggestions(suggestions[1..], query)
  }

  /** Like `Array.prototype.filter`, the filter keeps every copy of a matching
      suggestion and no copy of any other. */
  lemma {:induction false} FilterSuggestionsMultiplicity(suggestions: seq<string>, query: string)
    ensures forall s :: multiset(FilterSuggestions(suggestions, query))[s] ==
              if StartsWith(Lower(s), query) then multiset(suggestions)[s] else 0
  {
    if suggestions != [] {
      assert suggestions == [suggestions[0]] + suggestions[1..];
      FilterSuggestionsMultiplicity(suggestions[1..], query);
    }
  }

  lemma FilterSuggestionsCons(x: string, t: seq<string>, query: string)
    ensures FilterSuggestions([x] + t, query)
            == (if StartsWith(Lower(x), query) then [x] else []) + FilterSuggestions(t, query)
  {
    assert ([x] + t)[0] == x && ([x] + t)[1..] == t;
  }

  /** The filter never lengthens the list. */
  lemma FilterSuggestionsLength(suggestions: seq<string>, query: string)
    ensures |FilterSuggestions(suggestions, query)| <= |suggestions|
  {
    SubsequenceLength(FilterSuggestions(suggestions, query), suggestions);
  }

  /** Filtering a filtered list again changes nothing. */
  lemma {:induction false} FilterSuggestionsIdempotent(suggestions: seq<string>, query: string)
    ensures FilterSuggestions(FilterSuggestions(suggestions, query), query) == FilterSuggestions(suggestions, query)
  {
    if suggestions != [] {
      FilterSuggestionsIdempotent(suggestions[1..], query);
    }
  }

  /** `str.charAt(0).toUpperCase() + str.slice(1)` (script.js:271-273) */
  function Capitalize(s: string): (r: string)
    ensures |r| == |s|
    ensures s != [] ==> r[0] == UpperChar(s[0]) && r[1..] == s[1..]
  {
    if s == [] then [] else [UpperChar(s[0])] + s[1..]
  }

  /** Capitalizing changes a name only in case. */
  lemma CapitalizeSameLower(s: string)
    ensures Lower(Capitalize(s)) == Lower(s)
  {
    if s != [] {
      assert LowerChar(UpperChar(s[0])) == LowerChar(s[0]);
      assert Lower(Capitalize(s))[0] == Lower(s)[0];
    }
  }

  /** Capitalizing twice is capitalizing once. */
  lemma CapitalizeIdempotent(s: string)
    ensures Capitalize(Capitalize(s)) == Capitalize(s)
  {
    if s != [] {
      assert UpperChar(UpperChar(s[0])) == UpperChar(s[0]);
    }
  }

  /** The add button's click handler (script.js:22-27): the value sent to
      `addItem`, if any. */
  function AddItemOnClick(input: string): (r: Option<string>)
    ensures r.Some? <==> exists i :: 0 <= i < |input| && !IsJsWhitespace(input[i])
    ensures r.Some? ==> r.value == JsTrim(input) && r.value != []
  {
    TrimEmpty(input, IsJsWhitespace);
    var item := JsTrim(input);
    if item != [] then Some(item) else None
  }

  /** The input's keypress handler (script.js:30-38): only Enter submits,
      and only a non-blank input, which it sends trimmed. */
  function AddItemOnKeypress(key: string, input: string): (r: Option<string>)
    ensures r.Some? <==> key == "Enter" && exists i :: 0 <= i < |input| && !IsJsWhitespace(input[i])
    ensures r.Some? ==> r.value == JsTrim(input) && r.value != []
  {
    if key == "Enter" then
      var item := JsTrim(input);
      if item != [] then Some(item) else None
    else None
  }

  /** What the save button of the edit dialog does. */
  datatype EditAction = WarnEmpty | SendUpdate(name: string)

  /** script.js:145-156: a blank name is refused with a warning, otherwise the
      trimmed name is sent. */
  function SaveEdit(input: string): (a: EditAction)
    ensures a.WarnEmpty? <==> forall i :: 0 <= i < |input| ==> IsJsWhitespace(input[i])
    ensures a.SendUpdate? ==> a.name == JsTrim(input) && a.name != []
  {
    TrimEmpty(input, IsJsWhitespace);
    var newName := JsTrim(input);
    if newName == [] then WarnEmpty else SendUpdate(newName)
  }

  /** A submitted name has no surrounding whitespace, so submitting it again sends the same text. */
  lemma SubmittedNameIsTrimmed(input: string)
    requires AddItemOnClick(input).Some?
    ensures AddItemOnClick(AddItemOnClick(input).value) == AddItemOnClick(input)
  {
    TrimIdempotent(input, IsJsWhitespace);
    var v := JsTrim(input);
    assert v[0] in v;
  }
}

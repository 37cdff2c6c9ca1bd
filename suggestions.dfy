/**
 * The `/suggestions` handler (backend/app.py, `suggestions`): a
 * case-insensitive frequency histogram of the item names (a dict, so keys
 * keep first-insertion order), a stable sort of its entries by count,
 * descending, the first five entries, each key passed through str.capitalize.
 * The handler ignores the `q` query argument.
 */
module Suggestions {
  import opened Text
  import Items

  /** How many suggestions the handler returns at most (`sorted_items[:5]`). */
  const Limit: nat := 5

  /** A histogram entry, as `frequency.items()` yields it: (key, count). */
  type Entry = (string, nat)

  /** The dict `frequency`: its keys in insertion order and its values. */
  datatype Histogram = Histogram(keys: seq<string>, counts: map<string, nat>)

  /** `item['name'].lower()` for each record, in list order. */
  function LowerNames(items: seq<Items.Item>): (r: seq<string>)
    ensures |r| == |items|
    ensures forall i :: 0 <= i < |items| ==> r[i] == Lower(items[i].name)
  {
    if items == [] then [] else LowerNames(items[..|items| - 1]) + [Lower(items[|items| - 1].name)]
  }

  /** Number of positions of `s` holding `k`. */
  function Occurrences(s: seq<string>, k: string): nat {
    if s == [] then 0
    else Occurrences(s[..|s| - 1], k) + (if s[|s| - 1] == k then 1 else 0)
  }

  predicate Distinct<T(==)>(s: seq<T>) {
    forall i, j :: 0 <= i < j < |s| ==> s[i] != s[j]
  }

  /** No duplicates means every element has multiplicity at most one. */
  lemma {:induction false} DistinctMultiset<T>(s: seq<T>)
    ensures Distinct(s) <==> forall x :: multiset(s)[x] <= 1
  {
    if s != [] {
      var t := s[1..];
      assert s == [s[0]] + t;
      DistinctMultiset(t);
      if Distinct(s) {
        assert Distinct(t) by {
          forall i, j | 0 <= i < j < |t| ensures t[i] != t[j] {
            assert t[i] == s[i + 1] && t[j] == s[j + 1];
          }
        }
        forall j | 0 <= j < |t| ensures t[j] != s[0] {
          assert t[j] == s[j + 1];
        }
      }
      if forall x :: multiset(s)[x] <= 1 {
        assert forall x :: multiset(t)[x] <= multiset(s)[x];
        assert multiset(t)[s[0]] == 0;
        forall i, j | 0 <= i < j < |s| ensures s[i] != s[j] {
          if i == 0 {
            assert s[j] == t[j - 1];
          } else {
            assert s[i] == t[i - 1] && s[j] == t[j - 1];
          }
        }
      }
    }
  }

  /** A permutation of a duplicate-free sequence is duplicate-free. */
  lemma PermutationDistinct<T>(a: seq<T>, b: seq<T>)
    requires multiset(a) == multiset(b) && Distinct(b)
    ensures Distinct(a)
  {
    DistinctMultiset(a);
    DistinctMultiset(b);
  }

  /** The position of the first occurrence of `k` in `s`. */
  function IndexOf(s: seq<string>, k: string): (i: nat)
    requires k in s
    ensures i < |s| && s[i] == k && k !in s[..i]
  {
    if s[0] == k then 0
    else
      assert s[1..][..IndexOf(s[1..], k)] == s[1..IndexOf(s[1..], k) + 1];
      1 + IndexOf(s[1..], k)
  }

  /** An element at a position below `j` occurs in the prefix of length `j`. */
  lemma InPrefix(s: seq<string>, i: nat, j: nat)
    ensures i < j <= |s| ==> s[i] in s[..j]
  {
    if i < j <= |s| {
      assert s[..j][i] == s[i];
    }
  }

  /** Appending to `s` does not move the first occurrence of a `k` already in it. */
  lemma IndexOfSnoc(s: seq<string>, x: string)
    ensures forall k :: k in s ==> IndexOf(s + [x], k) == IndexOf(s, k)
    ensures x !in s ==> IndexOf(s + [x], x) == |s|
  {
    forall k | k in s ensures IndexOf(s + [x], k) == IndexOf(s, k) {
      var i, j := IndexOf(s + [x], k), IndexOf(s, k);
      assert (s + [x])[j] == k;
      InPrefix(s + [x], j, i);
      InPrefix(s, i, j);
    }
    if x !in s {
      InPrefix(s + [x], IndexOf(s + [x], x), |s|);
      assert (s + [x])[..|s|] == s;
    }
  }

  /** The distinct elements of `s` in order of first occurrence, as a dict's
      keys come out after inserting the elements of `s` one by one. */
  function FirstOccurrences(s: seq<string>): (r: seq<string>)
    ensures forall k :: k in r <==> k in s
    ensures Distinct(r)
    ensures forall i, j :: 0 <= i < j < |r| ==> IndexOf(s, r[i]) < IndexOf(s, r[j])
  {
    if s == [] then []
    else
      var s' := s[..|s| - 1];
      var p := FirstOccurrences(s');
      var x := s[|s| - 1];
      assert s == s' + [x];
      assert forall k :: k in s <==> k in s' || k == x;
      IndexOfSnoc(s', x);
      if x in p then p else p + [x]
  }

  lemma {:induction false} OccurrencesPositive(s: seq<string>, k: string)
    ensures Occurrences(s, k) > 0 <==> k in s
  {
    if s != [] {
      OccurrencesPositive(s[..|s| - 1], k);
      assert forall j :: j in s <==> j in s[..|s| - 1] || j == s[|s| - 1];
    }
  }

  /** An element of a duplicate-free sequence occurs in it exactly once. */
  lemma {:induction false} OccurrencesDistinct(s: seq<string>, k: string)
    requires Distinct(s) && k in s
    ensures Occurrences(s, k) == 1
  {
    var p := s[..|s| - 1];
    if s[|s| - 1] == k {
      OccurrencesPositive(p, k);
      assert k !in p;
    } else {
      assert k in p;
      OccurrencesDistinct(p, k);
    }
  }

  /** The dict's entries, `(key, count)` per key, for keys `ks` over names `s`. */
  function Rows(ks: seq<string>, s: seq<string>): (r: seq<Entry>)
    ensures |r| == |ks|
    ensures forall i :: 0 <= i < |ks| ==> r[i] == (ks[i], Occurrences(s, ks[i]))
  {
    if ks == [] then [] else Rows(ks[..|ks| - 1], s) + [(ks[|ks| - 1], Occurrences(s, ks[|ks| - 1]))]
  }

  /** The histogram of a name list, as `frequency.items()` yields it. */
  function HistogramOf(names: seq<string>): seq<Entry> {
    Rows(FirstOccurrences(names), names)
  }

  function Keys(es: seq<Entry>): (r: seq<string>)
    ensures |r| == |es|
    ensures forall i :: 0 <= i < |es| ==> r[i] == es[i].0
  {
    seq(|es|, i requires 0 <= i < |es| => es[i].0)
  }

  function TotalCount(es: seq<Entry>): nat {
    if es == [] then 0 else TotalCount(es[..|es| - 1]) + es[|es| - 1].1
  }

  /** Counting one more name adds, summed over the keys, the number of times it is a key. */
  lemma {:induction false} TotalCountStep(ks: seq<string>, s: seq<string>, x: string)
    ensures TotalCount(Rows(ks, s + [x])) == TotalCount(Rows(ks, s)) + Occurrences(ks, x)
  {
    if ks != [] {
      var ks' := ks[..|ks| - 1];
      TotalCountStep(ks', s, x);
      assert (s + [x])[..|s + [x]| - 1] == s;
      assert Rows(ks, s + [x])[..|ks| - 1] == Rows(ks', s + [x]);
      assert Rows(ks, s)[..|ks| - 1] == Rows(ks', s);
    }
  }

  /** The counts of the histogram add up to the number of items (app.py:48-51). */
  lemma {:induction false} HistogramTotal(names: seq<string>)
    ensures TotalCount(HistogramOf(names)) == |names|
  {
    if names != [] {
      var s := names[..|names| - 1];
      var x := names[|names| - 1];
      var d := FirstOccurrences(s);
      assert names == s + [x];
      HistogramTotal(s);
      TotalCountStep(d, s, x);
      if x in d {
        OccurrencesDistinct(d, x);
      } else {
        OccurrencesPositive(d, x);
        OccurrencesPositive(s, x);
        var d' := d + [x];
        assert FirstOccurrences(names) == d';
        assert d'[..|d'| - 1] == d;
        assert Rows(d', names)[..|d|] == Rows(d, names);
      }
    }
  }

  /** A key's count is the number of items whose lower-cased name is that key (app.py:48-51). */
  lemma CountIsNumberOfItems(items: seq<Items.Item>, k: string)
    ensures Occurrences(LowerNames(items), k) == |set i | 0 <= i < |items| && Lower(items[i].name) == k|
  {
    var names := LowerNames(items);
    OccurrencesAsCount(names, k);
    assert (set i | 0 <= i < |names| && names[i] == k) == (set i | 0 <= i < |items| && Lower(items[i].name) == k);
  }

  lemma {:induction false} OccurrencesAsCount(s: seq<string>, k: string)
    ensures Occurrences(s, k) == |set i | 0 <= i < |s| && s[i] == k|
  {
    if s != [] {
      var p := s[..|s| - 1];
      OccurrencesAsCount(p, k);
      var a := set i | 0 <= i < |p| && p[i] == k;
      var b := set i | 0 <= i < |s| && s[i] == k;
      if s[|s| - 1] == k {
        assert b == a + {|s| - 1};
      } else {
        assert b == a;
      }
    }
  }

  /** The loop of app.py:48-51, updating the dict in place; its
      `frequency.items()` are the reference histogram of the names. */
  method Frequency(items: seq<Items.Item>) returns (h: Histogram)
    ensures h.keys == FirstOccurrences(LowerNames(items))
    ensures forall k :: k in h.counts <==> k in h.keys
    ensures forall k :: k in h.counts ==> h.counts[k] == Occurrences(LowerNames(items), k)
    ensures EntriesOf(h) == HistogramOf(LowerNames(items))
  {
    var keys: seq<string> := [];
    var counts: map<string, nat> := map[];
    ghost var names := LowerNames(items);
    for i := 0 to |items|
      invariant keys == FirstOccurrences(names[..i])
      invariant forall k :: k in counts <==> k in keys
      invariant forall k :: k in counts ==> counts[k] == Occurrences(names[..i], k)
    {
      var name := Lower(items[i].name);
      var old_count := if name in counts then counts[name] else 0;
      FrequencyStep(names, i, keys, counts, old_count);
      if name !in counts {
        keys := keys + [name];
      }
      counts := counts[name := old_count + 1];
    }
    assert names[..|items|] == names;
    h := Histogram(keys, counts);
    EntriesOfHistogram(h, names);
  }

  /** One iteration of the counting loop: counting `names[i]` takes the dict
      of `names[..i]` to the dict of `names[..i + 1]`. */
  lemma FrequencyStep(names: seq<string>, i: nat, keys: seq<string>, counts: map<string, nat>, c: nat)
    requires i < |names|
    requires keys == FirstOccurrences(names[..i])
    requires forall k :: k in counts <==> k in keys
    requires forall k :: k in counts ==> counts[k] == Occurrences(names[..i], k)
    requires c == if names[i] in counts then counts[names[i]] else 0
    ensures (if names[i] in counts then keys else keys + [names[i]]) == FirstOccurrences(names[..i + 1])
    ensures forall k :: k in counts[names[i] := c + 1] <==> k in keys || k == names[i]
    ensures forall k {:trigger Occurrences(names[..i + 1], k)} :: k in counts[names[i] := c + 1] ==>
              counts[names[i] := c + 1][k] == Occurrences(names[..i + 1], k)
  {
    assert names[..i + 1][..i] == names[..i];
    assert forall k :: k != names[i] ==> Occurrences(names[..i + 1], k) == Occurrences(names[..i], k);
    OccurrencesPositive(names[..i], names[i]);
  }

  /** A dict holding, per key of the names in first-occurrence order, that
      key's count yields the reference histogram. */
  lemma EntriesOfHistogram(h: Histogram, names: seq<string>)
    requires h.keys == FirstOccurrences(names)
    requires forall k :: k in h.counts <==> k in h.keys
    requires forall k :: k in h.counts ==> h.counts[k] == Occurrences(names, k)
    ensures EntriesOf(h) == HistogramOf(names)
  {
    assert forall i :: 0 <= i < |h.keys| ==> h.keys[i] in h.counts;
  }

  /** `frequency.items()`: the entries in key order. */
  function EntriesOf(h: Histogram): (r: seq<Entry>)
    requires forall k :: k in h.keys ==> k in h.counts
    ensures |r| == |h.keys|
    ensures forall i :: 0 <= i < |r| ==> r[i] == (h.keys[i], h.counts[h.keys[i]])
  {
    seq(|h.keys|, i requires 0 <= i < |h.keys| => (h.keys[i], h.counts[h.keys[i]]))
  }

  // ---------------------------------------------------------------------
  // sorted(..., key=lambda x: x[1], reverse=True): stable, descending

  predicate SortedDesc(s: seq<Entry>) {
    forall i, j :: 0 <= i < j < |s| ==> s[i].1 >= s[j].1
  }

  /** The entries of `s` with count `c`, in order. */
  function WithCount(s: seq<Entry>, c: nat): seq<Entry> {
    if s == [] then []
    else (if s[0].1 == c then [s[0]] else []) + WithCount(s[1..], c)
  }

  /** Puts `x` in front of the first entry whose count is not above its own. */
  function InsertDesc(x: Entry, s: seq<Entry>): (r: seq<Entry>)
    requires SortedDesc(s)
    ensures SortedDesc(r)
    ensures multiset(r) == multiset(s) + multiset{x}
    ensures forall e :: e in r <==> e == x || e in s
    ensures |r| == |s| + 1 && (r[0] == x || (s != [] && r[0] == s[0]))
  {
    if s == [] || s[0].1 <= x.1 then [x] + s
    else
      var rest := InsertDesc(x, s[1..]);
      InsertDescCons(x, s, rest);
      [s[0]] + rest
  }

  /** The recursive case of InsertDesc: `s[0]` goes in front of the rest. */
  lemma InsertDescCons(x: Entry, s: seq<Entry>, rest: seq<Entry>)
    requires SortedDesc(s) && s != [] && s[0].1 > x.1
    requires SortedDesc(rest) && multiset(rest) == multiset(s[1..]) + multiset{x}
    requires forall e :: e in rest <==> e == x || e in s[1..]
    ensures SortedDesc([s[0]] + rest)
    ensures multiset([s[0]] + rest) == multiset(s) + multiset{x}
    ensures forall e :: e in [s[0]] + rest <==> e == x || e in s
  {
    assert s == [s[0]] + s[1..];
    forall j | 0 <= j < |rest| ensures rest[j].1 <= s[0].1 {
      assert rest[j] in rest;
    }
  }

  /** Python's stable sort of the entries on their count, reversed. */
  function SortDesc(s: seq<Entry>): (r: seq<Entry>)
    ensures SortedDesc(r)
    ensures multiset(r) == multiset(s)
    ensures forall e :: e in r <==> e in s
  {
    if s == [] then []
    else
      assert s == [s[0]] + s[1..];
      InsertDesc(s[0], SortDesc(s[1..]))
  }

  lemma {:induction false} InsertDescWithCount(x: Entry, s: seq<Entry>, c: nat)
    requires SortedDesc(s)
    ensures WithCount(InsertDesc(x, s), c) == (if x.1 == c then [x] else []) + WithCount(s, c)
  {
    if s == [] || s[0].1 <= x.1 {
      assert ([x] + s)[1..] == s;
    } else {
      InsertDescWithCount(x, s[1..], c);
      var r := InsertDesc(x, s);
      var hx: seq<Entry> := if x.1 == c then [x] else [];
      var h0: seq<Entry> := if s[0].1 == c then [s[0]] else [];
      assert r[0] == s[0] && r[1..] == InsertDesc(x, s[1..]);
      assert WithCount(r, c) == h0 + (hx + WithCount(s[1..], c));
      assert WithCount(s, c) == h0 + WithCount(s[1..], c);
      assert hx == [] || h0 == [];
    }
  }

  /** Stability: among entries of equal count the sort keeps the input order. */
  lemma {:induction false} SortDescStable(s: seq<Entry>, c: nat)
    ensures WithCount(SortDesc(s), c) == WithCount(s, c)
  {
    if s != [] {
      SortDescStable(s[1..], c);
      InsertDescWithCount(s[0], SortDesc(s[1..]), c);
    }
  }

  lemma {:induction false} WithCountMembers(s: seq<Entry>, c: nat)
    ensures forall e :: e in WithCount(s, c) <==> e in s && e.1 == c
  {
    if s != [] {
      WithCountMembers(s[1..], c);
      assert forall e :: e in s <==> e == s[0] || e in s[1..];
    }
  }

  lemma WithCountOfFirst(s: seq<Entry>)
    ensures s != [] ==> WithCount(s, s[0].1) != []
  {
  }

  /** Sortedness and per-count order determine the result: any stable
      descending sort of the same entries is SortDesc. */
  lemma {:induction false} SortUnique(a: seq<Entry>, b: seq<Entry>)
    requires SortedDesc(a) && SortedDesc(b)
    requires forall c :: WithCount(a, c) == WithCount(b, c)
    ensures a == b
    decreases |a| + |b|
  {
    if a == [] && b == [] {
    } else if a == [] {
      WithCountOfFirst(b);
    } else if b == [] {
      WithCountOfFirst(a);
    } else {
      var ca, cb := a[0].1, b[0].1;
      WithCountMembers(a, cb);
      WithCountMembers(b, ca);
      assert WithCount(a, ca) != [];
      assert WithCount(b, ca)[0] in WithCount(b, ca);
      assert ca <= cb;
      assert WithCount(b, cb) != [];
      assert WithCount(a, cb)[0] in WithCount(a, cb);
      assert cb <= ca;
      assert a[0] == WithCount(a, ca)[0] == WithCount(b, ca)[0] == b[0];
      forall c ensures WithCount(a[1..], c) == WithCount(b[1..], c) {
        assert WithCount(a, c) == (if ca == c then [a[0]] else []) + WithCount(a[1..], c);
        assert WithCount(b, c) == (if cb == c then [b[0]] else []) + WithCount(b[1..], c);
        if c == ca {
          assert WithCount(a, c)[1..] == WithCount(a[1..], c);
          assert WithCount(b, c)[1..] == WithCount(b[1..], c);
        } else {
          assert [] + WithCount(a[1..], c) == WithCount(a[1..], c);
          assert [] + WithCount(b[1..], c) == WithCount(b[1..], c);
        }
      }
      SortUnique(a[1..], b[1..]);
      assert a == [a[0]] + a[1..] && b == [b[0]] + b[1..];
    }
  }

  /** `s[:n]` in Python: at most the first `n` entries. */
  function Take(s: seq<Entry>, n: nat): (r: seq<Entry>)
    ensures r <= s
    ensures |r| == if |s| < n then |s| else n
  {
    if |s| <= n then s else s[..n]
  }

  /** Truncation keeps, per count, a prefix of that count's entries in order. */
  lemma {:induction false} TakeWithCount(s: seq<Entry>, n: nat, c: nat)
    ensures WithCount(Take(s, n), c) <= WithCount(s, c)
  {
    if |s| > n && n > 0 {
      assert s[..n][1..] == s[1..][..n - 1];
      TakeWithCount(s[1..], n - 1, c);
      assert WithCount(s[..n], c) == (if s[0].1 == c then [s[0]] else []) + WithCount(s[1..][..n - 1], c);
      assert Take(s[1..], n - 1) == s[1..][..n - 1];
    } else if |s| > n {
      assert Take(s, n) == [];
    }
  }

  // ---------------------------------------------------------------------
  // str.capitalize()

  /** Python's str.capitalize: first character upper-cased, the rest lower-cased. */
  function PyCapitalize(s: string): (r: string)
    ensures |r| == |s|
    ensures s != [] ==> r[0] == UpperChar(s[0]) && IsLower(r[1..]) && r[1..] == Lower(s[1..])
    ensures Lower(r) == Lower(s)
  {
    if s == [] then []
    else
      LowerIsLower(s[1..]);
      LowerAppend([UpperChar(s[0])], Lower(s[1..]));
      LowerAppend([s[0]], s[1..]);
      assert s == [s[0]] + s[1..];
      assert Lower([UpperChar(s[0])]) == Lower([s[0]]);
      [UpperChar(s[0])] + Lower(s[1..])
  }

  /** On a lower-case key, capitalize is undone by lower. */
  lemma PyCapitalizeLowerInverse(k: string)
    requires IsLower(k)
    ensures Lower(PyCapitalize(k)) == k
  {
    if k != [] {
      assert LowerChar(k[0]) == k[0];
      UpperLowerInverse(k[0]);
      LowerAppend([UpperChar(k[0])], Lower(k[1..]));
      LowerIsLower(k[1..]);
      assert Lower(k[1..]) == k[1..];
      assert k == [k[0]] + k[1..];
    }
  }

  function CapitalizeAll(ks: seq<string>): (r: seq<string>)
    ensures |r| == |ks|
    ensures forall i :: 0 <= i < |ks| ==> r[i] == PyCapitalize(ks[i])
  {
    seq(|ks|, i requires 0 <= i < |ks| => PyCapitalize(ks[i]))
  }

  lemma CapitalizeAllCons(k: string, ks: seq<string>)
    ensures CapitalizeAll([k] + ks) == [PyCapitalize(k)] + CapitalizeAll(ks)
  {
  }

  // ---------------------------------------------------------------------
  // The handler

  /** The ranked histogram entries the handler keeps: `sorted_items[:5]`. */
  function Ranked(items: seq<Items.Item>): seq<Entry> {
    Take(SortDesc(HistogramOf(LowerNames(items))), Limit)
  }

  /** The JSON list `/suggestions` returns for the stored items: the
      capitalized key of each kept entry, at most five. */
  function SuggestionsOf(items: seq<Items.Item>): (r: seq<string>)
    ensures |r| == |Ranked(items)| && |r| <= Limit
    ensures forall i :: 0 <= i < |r| ==> r[i] == PyCapitalize(Ranked(items)[i].0)
  {
    CapitalizeAll(Keys(Ranked(items)))
  }

  /** app.py:45-54: count in a loop, then sort, take five and capitalize. */
  method Suggest(items: seq<Items.Item>) returns (r: seq<string>)
    ensures r == SuggestionsOf(items)
  {
    var h := Frequency(items);
    var entries := EntriesOf(h);
    var sorted := SortDesc(entries);
    r := CapitalizeAll(Keys(Take(sorted, Limit)));
  }

  /** Every histogram entry is (key, count of key) with the key a lower-cased name. */
  lemma HistogramEntries(names: seq<string>)
    ensures forall e :: e in HistogramOf(names) <==> e.0 in names && e.1 == Occurrences(names, e.0)
    ensures forall e :: e in HistogramOf(names) ==> e.1 >= 1
  {
    var d := FirstOccurrences(names);
    forall e | e in HistogramOf(names) ensures e.1 >= 1 {
      OccurrencesPositive(names, e.0);
    }
    forall e: Entry | e.0 in names && e.1 == Occurrences(names, e.0) ensures e in HistogramOf(names) {
      var j :| 0 <= j < |d| && d[j] == e.0;
      assert HistogramOf(names)[j] == e;
    }
  }

  /** At most five suggestions, at most one per distinct lower-cased name;
      none exactly when there are no items (app.py:52-53). */
  lemma SuggestionsLength(items: seq<Items.Item>)
    ensures var distinct := |FirstOccurrences(LowerNames(items))|;
            |SuggestionsOf(items)| == if distinct < Limit then distinct else Limit
    ensures SuggestionsOf(items) == [] <==> items == []
  {
    var names := LowerNames(items);
    var sorted := SortDesc(HistogramOf(names));
    assert |sorted| == |HistogramOf(names)| by {
      assert |multiset(sorted)| == |multiset(HistogramOf(names))|;
    }
    if items != [] {
      assert names[0] in FirstOccurrences(names);
    }
  }

  /** The kept entries are histogram entries in non-increasing order of count. */
  lemma RankedSorted(items: seq<Items.Item>)
    ensures SortedDesc(Ranked(items))
    ensures forall e :: e in Ranked(items) ==>
              e.0 in LowerNames(items) && e.1 == Occurrences(LowerNames(items), e.0)
  {
    var names := LowerNames(items);
    HistogramEntries(names);
  }

  lemma KeyInKeys(es: seq<Entry>, j: nat)
    ensures j < |es| ==> es[j].0 in Keys(es)
  {
    if j < |es| {
      assert Keys(es)[j] == es[j].0;
    }
  }

  /** In a descending sequence, an entry left out of a prefix is not above any entry kept. */
  lemma TakeIsTop(sorted: seq<Entry>, n: nat, e: Entry)
    requires SortedDesc(sorted) && e in sorted && e.0 !in Keys(Take(sorted, n))
    ensures forall f :: f in Take(sorted, n) ==> e.1 <= f.1
  {
    var top := Take(sorted, n);
    var j :| 0 <= j < |sorted| && sorted[j] == e;
    KeyInKeys(top, j);
    forall f | f in top ensures e.1 <= f.1 {
      var i :| 0 <= i < |top| && top[i] == f;
      assert sorted[i] == f;
    }
  }

  /** Top-k: a name that is not suggested occurs no more often than any suggested one. */
  lemma RankedIsTop(items: seq<Items.Item>, k: string)
    requires k in LowerNames(items) && k !in Keys(Ranked(items))
    ensures forall e :: e in Ranked(items) ==> Occurrences(LowerNames(items), k) <= e.1
  {
    var names := LowerNames(items);
    var hist := HistogramOf(names);
    HistogramEntries(names);
    var e := (k, Occurrences(names, k));
    assert e in hist;
    TakeIsTop(SortDesc(hist), Limit, e);
  }

  /** Ties: among names of equal count, the suggested ones are the first of
      them in order of first occurrence, and in that order (stable sort). */
  lemma RankedTies(items: seq<Items.Item>, c: nat)
    ensures WithCount(Ranked(items), c) <= WithCount(HistogramOf(LowerNames(items)), c)
  {
    var hist := HistogramOf(LowerNames(items));
    TakeWithCount(SortDesc(hist), Limit, c);
    SortDescStable(hist, c);
  }

  /** Every suggested key is a lower-cased item name, hence lower-case itself. */
  lemma RankedKeysLower(items: seq<Items.Item>)
    ensures forall k :: k in Keys(Ranked(items)) ==> k in LowerNames(items) && IsLower(k)
  {
    var names := LowerNames(items);
    var ks := Keys(Ranked(items));
    HistogramEntries(names);
    forall k | k in ks ensures k in names && IsLower(k) {
      var i :| 0 <= i < |ks| && ks[i] == k;
      assert Ranked(items)[i] in SortDesc(HistogramOf(names));
      var n :| 0 <= n < |names| && names[n] == k;
      LowerIsLower(items[n].name);
    }
  }

  /** No key is suggested twice. */
  lemma RankedKeysDistinct(items: seq<Items.Item>)
    ensures Distinct(Keys(Ranked(items)))
  {
    var names := LowerNames(items);
    var hist := HistogramOf(names);
    var d := FirstOccurrences(names);
    assert Distinct(hist) by {
      forall i, j | 0 <= i < j < |hist| ensures hist[i] != hist[j] {
        assert hist[i].0 == d[i] && hist[j].0 == d[j];
      }
    }
    var sorted := SortDesc(hist);
    PermutationDistinct(sorted, hist);
    HistogramEntries(names);
    var ranked := Ranked(items);
    var ks := Keys(ranked);
    forall i, j | 0 <= i < j < |ks| ensures ks[i] != ks[j] {
      assert ranked[i] == sorted[i] && ranked[j] == sorted[j];
      assert sorted[i] in hist && sorted[j] in hist;
    }
  }

  /** The suggestions are pairwise distinct, and each is the capitalized form
      of a suggested key that lower-casing recovers (app.py:50, 53). */
  lemma SuggestionsDistinct(items: seq<Items.Item>)
    ensures Distinct(SuggestionsOf(items))
    ensures forall i :: 0 <= i < |SuggestionsOf(items)| ==>
              Lower(SuggestionsOf(items)[i]) == Keys(Ranked(items))[i]
  {
    var ks := Keys(Ranked(items));
    RankedKeysDistinct(items);
    RankedKeysLower(items);
    forall i | 0 <= i < |ks| ensures Lower(PyCapitalize(ks[i])) == ks[i] {
      assert ks[i] in ks;
      PyCapitalizeLowerInverse(ks[i]);
    }
    var r := SuggestionsOf(items);
    forall i, j | 0 <= i < j < |r| ensures r[i] != r[j] {
      assert Lower(r[i]) == ks[i] && Lower(r[j]) == ks[j];
    }
  }
}

/** `count_common_words`: the `top_n` most frequent alphabetic words of the messages,
    as `Counter(words).most_common(top_n)` reports them. */
module WordFreq {
  import opened Common
  import opened Text

  /** `str.isalpha`: at least one character, and letters only. */
  predicate IsAlpha(w: string)
  {
    |w| > 0 && forall k :: 0 <= k < |w| ==> IsLetter(w[k])
  }

  /** `' '.join(messages).lower().split()`: every token is a non-empty run of
      non-whitespace characters without upper-case letters. */
  function Tokens(messages: seq<string>): (r: seq<string>)
    ensures forall t :: t in r ==> |t| > 0 && NoSpace(t) && NoUpper(t)
  {
    SplitFromNoUpper(Lower(Join(messages)), []);
    Split(Lower(Join(messages)))
  }

  /** One element of `[word for word in all_words if word.isalpha()]`. */
  function AlphaEntry(w: string): Option<string>
  {
    if IsAlpha(w) then Some(w) else None
  }

  /** The alphabetic tokens, in order: the filter keeps only alphabetic tokens. */
  function AlphaWords(tokens: seq<string>): (r: seq<string>)
    ensures |r| <= |tokens|
    ensures forall w :: w in r ==> IsAlpha(w) && w in tokens
  {
    var r := FilterMap(tokens, AlphaEntry);
    var idx := Selected(tokens, AlphaEntry);
    assert forall k :: 0 <= k < |idx| ==> AlphaEntry(tokens[idx[k]]) == Some(r[k]);
    r
  }

  /** How often `w` occurs in `words`: the value `Counter(words)` holds for it. */
  function Count(words: seq<string>, w: string): nat
  {
    multiset(words)[w]
  }

  /** The position at which `w` first occurs in `words`, or `|words|` if it does not occur. */
  function FirstIndex(words: seq<string>, w: string): (i: nat)
    ensures i <= |words| && (i < |words| <==> w in words)
    ensures i < |words| ==> words[i] == w
    ensures forall k :: 0 <= k < i ==> words[k] != w
  {
    if |words| == 0 then 0
    else if w in words[..|words| - 1] then FirstIndex(words[..|words| - 1], w)
    else if words[|words| - 1] == w then |words| - 1
    else |words|
  }

  /** The keys of `Counter(words)`: every distinct word once, in order of first occurrence. */
  function Keys(words: seq<string>): (keys: seq<string>)
    ensures forall w :: w in keys <==> w in words
    ensures forall a, b :: 0 <= a < b < |keys| ==> FirstIndex(words, keys[a]) < FirstIndex(words, keys[b])
  {
    if |words| == 0 then []
    else
      var prefix := words[..|words| - 1];
      var keys := Keys(prefix);
      assert forall w :: w in prefix ==> FirstIndex(words, w) == FirstIndex(prefix, w) < |prefix|;
      if words[|words| - 1] in prefix then keys else keys + [words[|words| - 1]]
  }

  /** Every key occurs at least once. */
  lemma KeysOccur(words: seq<string>)
    ensures forall i :: 0 <= i < |Keys(words)| ==> Count(words, Keys(words)[i]) > 0
  {
    var keys := Keys(words);
    forall i | 0 <= i < |keys| ensures Count(words, keys[i]) > 0 {
      assert keys[i] in keys;
      assert keys[i] in multiset(words);
    }
  }

  /** `Counter(words).items()`: each distinct word with its count, in first-occurrence order. */
  function Items(words: seq<string>): (r: seq<(string, nat)>)
    ensures |r| == |Keys(words)|
    ensures forall k :: 0 <= k < |r| ==> r[k].1 == Count(words, r[k].0) > 0
  {
    var keys := Keys(words);
    KeysOccur(words);
    seq(|keys|, i requires 0 <= i < |keys| => (keys[i], Count(words, keys[i])))
  }

  /** Place `x` after every entry whose count is at least its own: one step of a stable
      sort by decreasing count. */
  function Insert(x: (string, nat), s: seq<(string, nat)>): (r: seq<(string, nat)>)
    ensures multiset(r) == multiset(s) + multiset{x}
  {
    if |s| == 0 then [x]
    else if s[0].1 >= x.1 then
      assert s == [s[0]] + s[1..];
      [s[0]] + Insert(x, s[1..])
    else [x] + s
  }

  /** `sorted(items, key=count, reverse=True)`, stable as Python's sort is. */
  function SortByCount(items: seq<(string, nat)>): (r: seq<(string, nat)>)
    ensures multiset(r) == multiset(items)
  {
    if |items| == 0 then []
    else
      assert items == items[..|items| - 1] + [items[|items| - 1]];
      Insert(items[|items| - 1], SortByCount(items[..|items| - 1]))
  }

  /** The first `n` entries, or all of them when there are fewer. A count of zero or less
      takes nothing: this is what `most_common(n)` does for such `n` (it asks `heapq.nlargest`
      for `n` entries, and that returns none), not what a slice `s[:n]` would do. */
  function Take<T>(s: seq<T>, n: int): (r: seq<T>)
    ensures |r| == if n <= 0 then 0 else Min(n, |s|)
    ensures r == s[..|r|]
  {
    if n <= 0 then [] else if n < |s| then s[..n] else s
  }

  /** `Counter(words).most_common(n)`: `n` entries, or one per distinct word when there
      are fewer, none for `n <= 0`; each pairs a word that occurs with its count. */
  function MostCommon(words: seq<string>, n: int): (r: seq<(string, nat)>)
    ensures |r| == (if n <= 0 then 0 else Min(n, |Keys(words)|))
    ensures forall k :: 0 <= k < |r| ==> r[k].1 == Count(words, r[k].0) > 0
  {
    SortedItems(words);
    Take(SortByCount(Items(words)), n)
  }

  /** `count_common_words(messages, top_n)`: at most `top_n` entries, none when it is zero
      or less, each an alphabetic, lower-case word that occurs, with a positive count. */
  function CountCommonWords(messages: seq<string>, topN: int): (r: seq<(string, nat)>)
    ensures |r| <= (if topN <= 0 then 0 else topN)
    ensures forall k :: 0 <= k < |r| ==> IsAlpha(r[k].0) && NoUpper(r[k].0) && r[k].1 > 0
  {
    var words := AlphaWords(Tokens(messages));
    var r := MostCommon(words, topN);
    assert forall k :: 0 <= k < |r| ==> r[k].0 in multiset(words);
    r
  }

  /** The order `most_common` reports entries in: higher count first and, between equal
      counts, the word that occurred first in `words`. */
  predicate Precedes(words: seq<string>, x: (string, nat), y: (string, nat))
  {
    x.1 > y.1 || (x.1 == y.1 && FirstIndex(words, x.0) < FirstIndex(words, y.0))
  }

  predicate SortedBy(words: seq<string>, s: seq<(string, nat)>)
  {
    forall a, b :: 0 <= a < b < |s| ==> Precedes(words, s[a], s[b])
  }

  /** An entry put in front of a sorted list that it precedes entirely leaves it sorted. */
  lemma SortedCons(words: seq<string>, x: (string, nat), t: seq<(string, nat)>)
    requires SortedBy(words, t) && forall k :: 0 <= k < |t| ==> Precedes(words, x, t[k])
    ensures SortedBy(words, [x] + t)
  {
    assert forall a :: 0 < a < |t| + 1 ==> ([x] + t)[a] == t[a - 1];
  }

  /** Inserting an entry whose word occurred after every word already placed keeps the
      order: this is where the sort's stability is used. */
  lemma {:induction false} InsertSorted(words: seq<string>, x: (string, nat), s: seq<(string, nat)>)
    requires SortedBy(words, s)
    requires forall e :: e in s ==> FirstIndex(words, e.0) < FirstIndex(words, x.0)
    ensures SortedBy(words, Insert(x, s))
    decreases |s|
  {
    if |s| > 0 {
      if s[0].1 >= x.1 {
        InsertSorted(words, x, s[1..]);
        var t := Insert(x, s[1..]);
        forall k | 0 <= k < |t| ensures Precedes(words, s[0], t[k]) {
          assert t[k] in multiset(s[1..]) + multiset{x};
          if t[k] in s[1..] {
            var j :| 0 <= j < |s[1..]| && s[1..][j] == t[k];
            assert s[j + 1] == t[k];
          }
        }
        SortedCons(words, s[0], t);
      } else {
        SortedCons(words, x, s);
      }
    }
  }

  /** Sorting entries listed in first-occurrence order puts them in `Precedes` order. */
  lemma {:induction false} SortByCountSorted(words: seq<string>, items: seq<(string, nat)>)
    requires forall a, b :: 0 <= a < b < |items| ==> FirstIndex(words, items[a].0) < FirstIndex(words, items[b].0)
    ensures SortedBy(words, SortByCount(items))
  {
    if |items| > 0 {
      var prefix := items[..|items| - 1];
      var x := items[|items| - 1];
      SortByCountSorted(words, prefix);
      var s := SortByCount(prefix);
      forall e | e in s ensures FirstIndex(words, e.0) < FirstIndex(words, x.0) {
        assert e in multiset(prefix);
        var j :| 0 <= j < |prefix| && prefix[j] == e;
      }
      InsertSorted(words, x, s);
    }
  }

  /** An entry `(w, c)` is an item of `Counter(words)` exactly when `w` occurs and `c` is its count. */
  lemma ItemsAre(words: seq<string>, w: string, c: nat)
    ensures (w, c) in Items(words) <==> w in words && c == Count(words, w)
  {
    var keys := Keys(words);
    if w in words {
      var i :| 0 <= i < |keys| && keys[i] == w;
      assert Items(words)[i] == (w, Count(words, w));
    }
  }

  /** The items of `Counter(words)` sorted by count: every distinct word once, with its
      count, in `Precedes` order. */
  lemma SortedItems(words: seq<string>)
    ensures var s := SortByCount(Items(words));
      && SortedBy(words, s) && |s| == |Keys(words)|
      && forall w, c :: (w, c) in s <==> w in words && c == Count(words, w)
  {
    var items := Items(words);
    var s := SortByCount(items);
    SortByCountSorted(words, items);
    assert |s| == |multiset(s)| == |multiset(items)| == |items|;
    forall w, c ensures (w, c) in s <==> w in words && c == Count(words, w) {
      assert (w, c) in s <==> (w, c) in multiset(items);
      ItemsAre(words, w, c);
    }
  }

  /** The entries of `most_common(n)` come in `Precedes` order (counts never increase,
      and equal counts keep first-occurrence order), so no word repeats. */
  lemma MostCommonOrder(words: seq<string>, n: int)
    ensures var r := MostCommon(words, n);
      forall a, b :: 0 <= a < b < |r| ==> Precedes(words, r[a], r[b]) && r[a].0 != r[b].0
  {
    var s := SortByCount(Items(words));
    var r := MostCommon(words, n);
    SortedItems(words);
    assert forall k :: 0 <= k < |r| ==> r[k] == s[k] && s[k] in s;
  }

  /** Every word that `most_common(n)` leaves out comes after every word it returns. */
  lemma MostCommonRank(words: seq<string>, n: int)
    ensures var r := MostCommon(words, n);
      forall w, k :: w in words && (w, Count(words, w)) !in r && 0 <= k < |r| ==>
        Precedes(words, r[k], (w, Count(words, w)))
  {
    var s := SortByCount(Items(words));
    var r := MostCommon(words, n);
    SortedItems(words);
    forall w, k | w in words && (w, Count(words, w)) !in r && 0 <= k < |r|
      ensures Precedes(words, r[k], (w, Count(words, w)))
    {
      var j :| 0 <= j < |s| && s[j] == (w, Count(words, w));
      assert r[k] == s[k];
    }
  }

  /** When `most_common(n)` returns fewer than `n` entries, every word is among them. */
  lemma MostCommonComplete(words: seq<string>, n: int)
    ensures var r := MostCommon(words, n);
      |r| < n ==> forall w :: w in words ==> (w, Count(words, w)) in r
  {
    var s := SortByCount(Items(words));
    SortedItems(words);
  }

  /** Where a word first occurs once one more word is appended. */
  lemma FirstIndexSnoc(words: seq<string>, x: string, w: string)
    ensures FirstIndex(words + [x], w)
      == if w in words then FirstIndex(words, w) else if w == x then |words| else |words| + 1
  {
    assert (words + [x])[..|words|] == words;
  }

  /** The filter keeps every alphabetic token as often as it occurs. */
  lemma {:induction false} AlphaWordsCount(tokens: seq<string>, w: string)
    requires IsAlpha(w)
    ensures Count(AlphaWords(tokens), w) == Count(tokens, w)
  {
    if |tokens| > 0 {
      var prefix := tokens[..|tokens| - 1];
      assert tokens == prefix + [tokens[|tokens| - 1]];
      AlphaWordsCount(prefix, w);
    }
  }

  /** An alphabetic word is kept exactly when it is a token. */
  lemma AlphaWordsHas(tokens: seq<string>, w: string)
    requires IsAlpha(w)
    ensures w in AlphaWords(tokens) <==> w in tokens
  {
    AlphaWordsCount(tokens, w);
    assert w in AlphaWords(tokens) <==> w in multiset(AlphaWords(tokens));
    assert w in tokens <==> w in multiset(tokens);
  }

  /** The filter keeps alphabetic tokens in the order of their first occurrences. */
  lemma {:induction false} AlphaWordsFirst(tokens: seq<string>, u: string, v: string)
    requires IsAlpha(u) && IsAlpha(v) && u in tokens && v in tokens
    ensures FirstIndex(AlphaWords(tokens), u) < FirstIndex(AlphaWords(tokens), v)
      <==> FirstIndex(tokens, u) < FirstIndex(tokens, v)
  {
    var prefix := tokens[..|tokens| - 1];
    var x := tokens[|tokens| - 1];
    var a := AlphaWords(prefix);
    assert tokens == prefix + [x];
    assert AlphaWords(tokens) == if IsAlpha(x) then a + [x] else a;
    AlphaWordsHas(prefix, u);
    AlphaWordsHas(prefix, v);
    FirstIndexSnoc(prefix, x, u);
    FirstIndexSnoc(prefix, x, v);
    if IsAlpha(x) {
      FirstIndexSnoc(a, x, u);
      FirstIndexSnoc(a, x, v);
    }
    if u in prefix && v in prefix {
      AlphaWordsFirst(prefix, u, v);
    }
  }

  /** Joining with spaces never glues two messages' words together: the tokens are the
      lower-cased messages' tokens, message after message. */
  lemma {:induction false} TokensPerMessage(messages: seq<string>)
    ensures Tokens(messages) == if |messages| == 0 then [] else Split(Lower(messages[0])) + Tokens(messages[1..])
  {
    if |messages| > 1 {
      var m := messages[0];
      var rest := Join(messages[1..]);
      LowerConcat(m + " ", rest);
      LowerConcat(m, " ");
      assert Lower(" ") == " ";
      assert Lower(m) + " " + Lower(rest) == Lower(m) + [' '] + Lower(rest);
      SplitAtSpace(Lower(m), ' ', Lower(rest));
    } else if |messages| == 1 {
      assert Join(messages[1..]) == "";
      assert Split("") == [];
    }
  }

  /** Each entry of `count_common_words(messages, top_n)` is a token of the joined,
      lower-cased messages with its number of occurrences among them. */
  lemma CountCommonWordsEntries(messages: seq<string>, topN: int)
    ensures var tokens := Tokens(messages); var r := CountCommonWords(messages, topN);
      forall k :: 0 <= k < |r| ==> r[k].0 in tokens && r[k].1 == Count(tokens, r[k].0)
  {
    var tokens := Tokens(messages);
    var words := AlphaWords(tokens);
    var r := CountCommonWords(messages, topN);
    assert r == MostCommon(words, topN);
    forall k | 0 <= k < |r| ensures r[k].0 in tokens && r[k].1 == Count(tokens, r[k].0) {
      assert r[k].0 in multiset(words);
      AlphaWordsCount(tokens, r[k].0);
    }
  }

  /** When `count_common_words(messages, top_n)` returns fewer than `top_n` entries, every
      alphabetic token is among them, with its count. */
  lemma CountCommonWordsComplete(messages: seq<string>, topN: int)
    ensures var tokens := Tokens(messages); var r := CountCommonWords(messages, topN);
      |r| < topN ==> forall w :: w in tokens && IsAlpha(w) ==> (w, Count(tokens, w)) in r
  {
    var tokens := Tokens(messages);
    var words := AlphaWords(tokens);
    var r := CountCommonWords(messages, topN);
    assert r == MostCommon(words, topN);
    MostCommonComplete(words, topN);
    forall w | w in tokens && IsAlpha(w) ensures w in words && Count(words, w) == Count(tokens, w) {
      AlphaWordsCount(tokens, w);
      assert w in multiset(tokens);
    }
  }

  /** The filter keeps every alphabetic token as often as it occurs, for all words at once. */
  lemma AlphaWordsCounts(tokens: seq<string>)
    ensures forall w :: IsAlpha(w) ==> Count(AlphaWords(tokens), w) == Count(tokens, w)
  {
    forall w | IsAlpha(w) ensures Count(AlphaWords(tokens), w) == Count(tokens, w) {
      AlphaWordsCount(tokens, w);
    }
  }

  /** The filter keeps the order of first occurrences, for all pairs of kept words at once. */
  lemma AlphaWordsOrder(tokens: seq<string>)
    ensures var words := AlphaWords(tokens);
      forall u, v :: u in words && v in words ==>
        (FirstIndex(words, u) < FirstIndex(words, v) <==> FirstIndex(tokens, u) < FirstIndex(tokens, v))
  {
    var words := AlphaWords(tokens);
    forall u, v | u in words && v in words
      ensures FirstIndex(words, u) < FirstIndex(words, v) <==> FirstIndex(tokens, u) < FirstIndex(tokens, v)
    {
      AlphaWordsFirst(tokens, u, v);
    }
  }

  /** The entries of `count_common_words` come by decreasing count, equal counts in the
      order in which the words first occur among the tokens, and each word once. */
  lemma CountCommonWordsOrder(messages: seq<string>, topN: int)
    ensures var tokens := Tokens(messages); var r := CountCommonWords(messages, topN);
      forall a, b :: 0 <= a < b < |r| ==>
        && r[a].0 != r[b].0 && r[a].1 >= r[b].1
        && (r[a].1 == r[b].1 ==> FirstIndex(tokens, r[a].0) < FirstIndex(tokens, r[b].0))
  {
    var tokens := Tokens(messages);
    var words := AlphaWords(tokens);
    MostCommonOrder(words, topN);
    AlphaWordsCounts(tokens);
    AlphaWordsOrder(tokens);
  }

  /** Every alphabetic token that `count_common_words` leaves out ranks after every word it
      returns: its count is no higher, and on a tie it first occurs later. */
  lemma CountCommonWordsRank(messages: seq<string>, topN: int)
    ensures var tokens := Tokens(messages); var r := CountCommonWords(messages, topN);
      forall w, k :: w in tokens && IsAlpha(w) && (w, Count(tokens, w)) !in r && 0 <= k < |r| ==>
        && r[k].1 >= Count(tokens, w)
        && (r[k].1 == Count(tokens, w) ==> FirstIndex(tokens, r[k].0) < FirstIndex(tokens, w))
  {
    var tokens := Tokens(messages);
    var words := AlphaWords(tokens);
    MostCommonRank(words, topN);
    AlphaWordsCounts(tokens);
    AlphaWordsOrder(tokens);
    forall w | w in tokens && IsAlpha(w) ensures w in words {
      assert w in multiset(tokens);
    }
  }

  /** No messages, no words. */
  lemma NoMessagesNoWords(topN: int)
    ensures CountCommonWords([], topN) == []
  {
    assert Split(Lower("")) == [];
    assert Keys([]) == [];
  }
}

/** `detect_suspicious`: the chat lines in which some keyword occurs as a whole word,
    found with the pattern `\b<keyword>\b` (the keyword escaped, so taken literally)
    searched in the lower-cased line. */
module Suspicious {
  import opened Common
  import opened Text

  /** Whether s[p] is a `\w` character; positions outside `s` are not. */
  predicate WordAt(s: string, p: int)
  {
    0 <= p < |s| && IsWordChar(s[p])
  }

  /** `\b` at position p: exactly one of s[p - 1] and s[p] is a word character. */
  predicate Boundary(s: string, p: int)
  {
    WordAt(s, p - 1) != WordAt(s, p)
  }

  /** `\b<kw>\b` matches s[p..p + |kw|]. */
  predicate WholeWordAt(s: string, kw: string, p: nat)
  {
    p + |kw| <= |s| && s[p..p + |kw|] == kw && Boundary(s, p) && Boundary(s, p + |kw|)
  }

  /** `\b<kw>\b` matches somewhere in `s`. */
  ghost predicate ContainsWholeWord(s: string, kw: string)
  {
    exists p: nat :: WholeWordAt(s, kw, p)
  }

  /** `re.search` for `\b<kw>\b` from s[p] onwards: the leftmost position it matches at. */
  function FindWholeWord(s: string, kw: string, p: nat): Option<nat>
    requires p <= |s|
    decreases |s| - p
  {
    if WholeWordAt(s, kw, p) then Some(p)
    else if p == |s| then None
    else FindWholeWord(s, kw, p + 1)
  }

  /** The search reports the leftmost whole-word occurrence at or after p. */
  lemma {:induction false} FindWholeWordSound(s: string, kw: string, p: nat)
    requires p <= |s| && FindWholeWord(s, kw, p).Some?
    ensures var q := FindWholeWord(s, kw, p).value;
      p <= q && WholeWordAt(s, kw, q) && forall q': nat :: p <= q' < q ==> !WholeWordAt(s, kw, q')
    decreases |s| - p
  {
    if !WholeWordAt(s, kw, p) {
      FindWholeWordSound(s, kw, p + 1);
    }
  }

  /** The search misses no whole-word occurrence at or after p. */
  lemma {:induction false} FindWholeWordComplete(s: string, kw: string, p: nat, q: nat)
    requires p <= q && p <= |s| && WholeWordAt(s, kw, q)
    ensures FindWholeWord(s, kw, p).Some?
    decreases |s| - p
  {
    if !WholeWordAt(s, kw, p) {
      FindWholeWordComplete(s, kw, p + 1, q);
    }
  }

  /** `re.search(rf"\b{re.escape(kw)}\b", s)` is truthy. */
  predicate HasWholeWord(s: string, kw: string)
  {
    FindWholeWord(s, kw, 0).Some?
  }

  /** The search succeeds exactly when the keyword occurs as a whole word. */
  lemma HasWholeWordIff(s: string, kw: string)
    ensures HasWholeWord(s, kw) <==> ContainsWholeWord(s, kw)
  {
    if HasWholeWord(s, kw) {
      FindWholeWordSound(s, kw, 0);
    }
    if ContainsWholeWord(s, kw) {
      var p: nat :| WholeWordAt(s, kw, p);
      FindWholeWordComplete(s, kw, 0, p);
    }
  }

  /** The inner loop of `detect_suspicious` finds a keyword for this line. */
  predicate Flags(line: string, keywords: seq<string>)
  {
    exists k :: 0 <= k < |keywords| && HasWholeWord(Lower(line), keywords[k])
  }

  /** The filter that keeps a flagged line. */
  function Keep(keywords: seq<string>): string -> Option<string>
  {
    line => if Flags(line, keywords) then Some(line) else None
  }

  /** What `detect_suspicious` returns: every flagged line, once, in order; so never
      more lines than it was given. */
  function Flagged(lines: seq<string>, keywords: seq<string>): (r: seq<string>)
    ensures |r| <= |lines|
  {
    FilterMap(lines, Keep(keywords))
  }

  /** `detect_suspicious`: for each line, try the keywords in turn and keep the line
      at the first one that matches. */
  method DetectSuspicious(lines: seq<string>, keywords: seq<string>) returns (flagged: seq<string>)
    ensures flagged == Flagged(lines, keywords)
  {
    flagged := [];
    for n := 0 to |lines|
      invariant flagged == Flagged(lines[..n], keywords)
    {
      var line := lines[n];
      var lowerLine := Lower(line);
      var k := 0;
      while k < |keywords|
        invariant 0 <= k <= |keywords|
        invariant flagged == Flagged(lines[..n], keywords)
        invariant forall k' :: 0 <= k' < k ==> !HasWholeWord(lowerLine, keywords[k'])
      {
        if FindWholeWord(lowerLine, keywords[k], 0).Some? {
          flagged := flagged + [line];
          break;
        }
        k := k + 1;
      }
      FlaggedAfterSearch(lines, keywords, n, k);
    }
    assert lines[..|lines|] == lines;
  }

  /** The inner loop stopped at keyword k, the first that matches, or at the end of the
      keywords: the line is appended exactly when it stopped early. */
  lemma FlaggedAfterSearch(lines: seq<string>, keywords: seq<string>, n: nat, k: nat)
    requires n < |lines| && k <= |keywords|
    requires forall k' :: 0 <= k' < k ==> !HasWholeWord(Lower(lines[n]), keywords[k'])
    requires k < |keywords| ==> HasWholeWord(Lower(lines[n]), keywords[k])
    ensures Flagged(lines[..n + 1], keywords)
      == Flagged(lines[..n], keywords) + (if k < |keywords| then [lines[n]] else [])
  {
    assert Flags(lines[n], keywords) <==> k < |keywords|;
    FlaggedStep(lines, keywords, n);
  }

  /** One more line either is appended to the flagged lines or changes nothing. */
  lemma FlaggedStep(lines: seq<string>, keywords: seq<string>, n: nat)
    requires n < |lines|
    ensures Flagged(lines[..n + 1], keywords)
      == Flagged(lines[..n], keywords) + (if Flags(lines[n], keywords) then [lines[n]] else [])
  {
    assert lines[..n + 1][..n] == lines[..n];
  }

  /** A line is flagged exactly when some keyword occurs as a whole word in its lower-cased form. */
  lemma FlagsIff(line: string, keywords: seq<string>)
    ensures Flags(line, keywords) <==> exists kw :: kw in keywords && ContainsWholeWord(Lower(line), kw)
  {
    forall k | 0 <= k < |keywords| {
      HasWholeWordIff(Lower(line), keywords[k]);
    }
  }

  /** The flagged lines are a subsequence of the input: each line at most once, in
      order, and exactly those lines that some keyword flags. */
  lemma FlaggedFollowLines(lines: seq<string>, keywords: seq<string>)
    ensures var idx := Selected(lines, Keep(keywords));
      |Flagged(lines, keywords)| == |idx| <= |lines| &&
      (forall a, b :: 0 <= a < b < |idx| ==> idx[a] < idx[b]) &&
      (forall i :: 0 <= i < |lines| ==> (i in idx <==> Flags(lines[i], keywords))) &&
      (forall k :: 0 <= k < |idx| ==> Flagged(lines, keywords)[k] == lines[idx[k]])
  {
    var idx := Selected(lines, Keep(keywords));
    assert forall k :: 0 <= k < |idx| ==> Keep(keywords)(lines[idx[k]]) == Some(Flagged(lines, keywords)[k]);
  }

  /** Only the set of keywords matters: reordering or repeating them changes nothing. */
  lemma FlaggedKeywordSet(lines: seq<string>, keywords: seq<string>, others: seq<string>)
    requires forall kw :: kw in keywords <==> kw in others
    ensures Flagged(lines, keywords) == Flagged(lines, others)
  {
    forall line | line in lines ensures Keep(keywords)(line) == Keep(others)(line) {
      if Flags(line, keywords) {
        var k :| 0 <= k < |keywords| && HasWholeWord(Lower(line), keywords[k]);
        assert keywords[k] in others;
      }
      if Flags(line, others) {
        var k :| 0 <= k < |others| && HasWholeWord(Lower(line), others[k]);
        assert others[k] in keywords;
      }
    }
    FilterMapCongruent(lines, Keep(keywords), Keep(others));
  }

  /** An empty keyword list flags nothing. */
  lemma NoKeywordsFlagNothing(lines: seq<string>)
    ensures Flagged(lines, []) == []
  {
    FilterMapNone(lines, Keep([]));
  }

  /** Only the line is lower-cased, so a keyword holding an upper-case letter never matches. */
  lemma UpperKeywordNeverMatches(line: string, kw: string, i: nat)
    requires i < |kw| && IsUpper(kw[i])
    ensures !HasWholeWord(Lower(line), kw)
  {
    var s := Lower(line);
    forall p: nat ensures !WholeWordAt(s, kw, p) {
      if p + |kw| <= |s| {
        assert !IsUpper(s[p..p + |kw|][i]);
      }
    }
    if HasWholeWord(s, kw) {
      FindWholeWordSound(s, kw, 0);
    }
  }

  /** `"i bombed that test"` holds `bomb` only inside the longer word `bombed`. */
  lemma BombedHasNoBomb(s: string)
    requires s == "i bombed that test"
    ensures !HasWholeWord(s, "bomb")
  {
    forall p: nat ensures !WholeWordAt(s, "bomb", p) {
      if p + 4 <= |s| && s[p..p + 4] == "bomb" {
        assert s[p] == s[p..p + 4][0] == 'b';
        assert s[p + 1] == s[p..p + 4][1] == 'o';
        assert p == 2;
        assert WordAt(s, 6);
      }
    }
    if HasWholeWord(s, "bomb") {
      FindWholeWordSound(s, "bomb", 0);
    }
  }

  /** The keyword `bomb` does not flag `I bombed that test`: `bombed` is not `bomb`. */
  lemma BombedNotFlagged(line: string)
    requires line == "I bombed that test"
    ensures !Flags(line, ["bomb"])
  {
    assert Lower(line) == "i bombed that test";
    BombedHasNoBomb(Lower(line));
  }

  /** The keyword `bomb` flags `that's a bomb idea`, where it stands as a word of its own. */
  lemma BombIdeaFlagged(line: string)
    requires line == "that's a bomb idea"
    ensures Flags(line, ["bomb"])
  {
    var s := Lower(line);
    LowerOfNoUpper(line);
    assert s[9..13] == "bomb";
    assert WholeWordAt(s, "bomb", 9);
    FindWholeWordComplete(s, "bomb", 0, 9);
    assert HasWholeWord(s, ["bomb"][0]);
  }

  /** `\b` is a change between word and non-word characters, so a keyword that begins with
      a non-word character needs a word character before it: `$100` does not match in
      `pay $100 now`, although no letter or digit touches it there. */
  lemma DollarAfterSpaceNotFlagged(s: string)
    requires s == "pay $100 now"
    ensures !HasWholeWord(s, "$100")
  {
    forall p: nat ensures !WholeWordAt(s, "$100", p) {
      if p + 4 <= |s| && s[p..p + 4] == "$100" {
        assert s[p] == s[p..p + 4][0] == '$';
        assert p == 4;
        assert !Boundary(s, 4);
      }
    }
    if HasWholeWord(s, "$100") {
      FindWholeWordSound(s, "$100", 0);
    }
  }

  /** ... and `$100` does match in `a$100 b`, where a letter touches it. */
  lemma DollarAfterLetterFlagged(s: string)
    requires s == "a$100 b"
    ensures HasWholeWord(s, "$100")
  {
    assert s[1..5] == "$100";
    assert WholeWordAt(s, "$100", 1);
    FindWholeWordComplete(s, "$100", 0, 1);
  }
}



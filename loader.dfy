/** The list-level normalisation done by `load_chat` and `load_keywords` once the
    file has been read into lines: strip each line, drop the blank ones, and (for
    keywords) lower-case what is left. */
module Loader {
  import opened Common
  import opened Text

  /** A line that survives `if line.strip()`: one that is not whitespace only. */
  predicate NonBlank(line: string) { !AllSpace(line) }

  /** One element of `[line.strip() for line in f if line.strip()]`. */
  function ChatEntry(line: string): Option<string>
  {
    if NonBlank(line) then Some(Strip(line)) else None
  }

  /** One element of `[line.strip().lower() for line in f if line.strip()]`. */
  function KeywordEntry(line: string): Option<string>
  {
    if NonBlank(line) then Some(Lower(Strip(line))) else None
  }

  /** `load_chat` once the file is read: the non-blank lines, in order, each stripped;
      every line it returns is non-empty and has nothing left to strip. */
  function ChatLines(raw: seq<string>): (lines: seq<string>)
    ensures |lines| <= |raw|
    ensures forall e :: e in lines ==> e != [] && Strip(e) == e
  {
    var lines := FilterMap(raw, ChatEntry);
    forall e | e in lines ensures e != [] && Strip(e) == e {
      var k :| 0 <= k < |lines| && lines[k] == e;
      StripIdempotent(raw[Selected(raw, ChatEntry)[k]]);
    }
    lines
  }

  /** `load_keywords` once the file is read: the non-blank lines, in order, each
      stripped and lower-cased; every keyword is non-empty, stripped and lower-case. */
  function KeywordLines(raw: seq<string>): (keywords: seq<string>)
    ensures |keywords| <= |raw|
    ensures forall e :: e in keywords ==> e != [] && Strip(e) == e && NoUpper(e)
  {
    var keywords := FilterMap(raw, KeywordEntry);
    forall e | e in keywords ensures e != [] && Strip(e) == e && NoUpper(e) {
      var k :| 0 <= k < |keywords| && keywords[k] == e;
      KeywordIsClean(raw[Selected(raw, KeywordEntry)[k]]);
    }
    keywords
  }

  /** What `line.strip().lower()` leaves of a non-blank line is non-empty, stripped and lower-case. */
  lemma KeywordIsClean(line: string)
    requires NonBlank(line)
    ensures var kw := Lower(Strip(line)); kw != [] && Strip(kw) == kw && NoUpper(kw)
  {
    LowerOfStripped(Strip(line));
  }

  /** `load_chat` keeps exactly the non-blank lines, in their order, each stripped. */
  lemma ChatLinesFollowRaw(raw: seq<string>)
    ensures var idx := Selected(raw, ChatEntry);
      |ChatLines(raw)| == |idx| &&
      (forall i :: 0 <= i < |raw| ==> (i in idx <==> NonBlank(raw[i]))) &&
      (forall k :: 0 <= k < |idx| ==> ChatLines(raw)[k] == Strip(raw[idx[k]]))
  {
    var idx := Selected(raw, ChatEntry);
    assert forall k :: 0 <= k < |idx| ==> ChatEntry(raw[idx[k]]) == Some(ChatLines(raw)[k]);
  }

  /** `load_keywords` keeps exactly the non-blank lines, in their order, each stripped and lower-cased. */
  lemma KeywordLinesFollowRaw(raw: seq<string>)
    ensures var idx := Selected(raw, KeywordEntry);
      |KeywordLines(raw)| == |idx| &&
      (forall i :: 0 <= i < |raw| ==> (i in idx <==> NonBlank(raw[i]))) &&
      (forall k :: 0 <= k < |idx| ==> KeywordLines(raw)[k] == Lower(Strip(raw[idx[k]])))
  {
    var idx := Selected(raw, KeywordEntry);
    assert forall k :: 0 <= k < |idx| ==> KeywordEntry(raw[idx[k]]) == Some(KeywordLines(raw)[k]);
  }
}

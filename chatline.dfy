/** `extract_messages`: the message body of each chat line that matches the export
    format, found by the unanchored search
      \d{1,2}/\d{1,2}/\d{2,4}, \d{1,2}:\d{2} (AM|PM) - .*?: (.+)
    and taken from its second group. */
module ChatLine {
  import opened Common
  import opened Text

  /** s[i..j] is all digits. */
  predicate AllDigits(s: string, i: nat, j: nat)
    requires i <= j <= |s|
    decreases j - i
  {
    i == j || (IsDigit(s[i]) && AllDigits(s, i + 1, j))
  }

  /** `n` digits at s[i..i+n], then the character `sep`. */
  predicate DigitsThen(s: string, i: nat, n: nat, sep: char)
  {
    i + n < |s| && AllDigits(s, i, i + n) && s[i + n] == sep
  }

  /** A prefix of a run of digits is a run of digits. */
  lemma {:induction false} AllDigitsPrefix(s: string, i: nat, j: nat, m: nat)
    requires i <= m <= j <= |s| && AllDigits(s, i, j)
    ensures AllDigits(s, i, m)
    decreases m - i
  {
    if i < m {
      AllDigitsPrefix(s, i + 1, j, m);
    }
  }

  /** No newline in s[h..j]: the span `.` may run over. */
  predicate NoNewline(s: string, h: nat, j: nat)
    requires h <= j <= |s|
  {
    forall k :: h <= k < j ==> s[k] != '\n'
  }

  /** `t` holds no newline: it lies within one line. */
  predicate OneLine(t: string)
  {
    forall k :: 0 <= k < |t| ==> t[k] != '\n'
  }

  /** A `": "` starting at s[j]. */
  predicate ColonSpaceAt(s: string, j: nat)
  {
    j + 2 <= |s| && s[j] == ':' && s[j + 1] == ' '
  }

  /** `\d{lo,hi}` at s[i..p-1] and then the literal `sep` at s[p-1]. */
  predicate FieldAt(s: string, i: nat, lo: nat, hi: nat, sep: char, p: nat)
  {
    i + lo + 1 <= p <= i + hi + 1 && DigitsThen(s, i, p - i - 1, sep)
  }

  /** `(AM|PM) - ` at s[p..p+5]. */
  predicate MeridiemAt(s: string, p: nat)
  {
    p + 5 <= |s| && (s[p] == 'A' || s[p] == 'P') && s[p + 1] == 'M' && s[p + 2] == ' ' && s[p + 3] == '-' && s[p + 4] == ' '
  }

  /** The header `\d{1,2}/\d{1,2}/\d{2,4}, \d{1,2}:\d{2} (AM|PM) - ` spans s[i..h];
      p1, p2, p3 and p5 are the positions just after its `/`, `/`, `,` and `:`. */
  ghost predicate HeaderWith(s: string, i: nat, p1: nat, p2: nat, p3: nat, p5: nat, h: nat)
  {
    && FieldAt(s, i, 1, 2, '/', p1) && FieldAt(s, p1, 1, 2, '/', p2) && FieldAt(s, p2, 2, 4, ',', p3)
    && p3 < |s| && s[p3] == ' '
    && FieldAt(s, p3 + 1, 1, 2, ':', p5) && FieldAt(s, p5, 2, 2, ' ', p5 + 3)
    && MeridiemAt(s, p5 + 3) && h == p5 + 8
  }

  /** The header matches s[i..h] in some way. */
  ghost predicate HeaderAt(s: string, i: nat, h: nat)
  {
    exists p1: nat, p2: nat, p3: nat, p5: nat :: HeaderWith(s, i, p1, p2, p3, p5, h)
  }

  /** The whole pattern matches starting at s[i]: the header ends at h, `.*?` covers
      s[h..j], `": "` sits at s[j], and `(.+)` gets at least the character s[j + 2]. */
  ghost predicate MatchesAt(s: string, i: nat, h: nat, j: nat)
  {
    && HeaderAt(s, i, h) && h <= j && j + 2 < |s|
    && NoNewline(s, h, j) && ColonSpaceAt(s, j) && s[j + 2] != '\n'
  }

  /** `re.search` finds the pattern somewhere in s. */
  ghost predicate Matches(s: string)
  {
    exists i, h, j :: MatchesAt(s, i, h, j)
  }

  /** The number of consecutive digits starting at s[i]. */
  function DigitRun(s: string, i: nat): (n: nat)
    requires i <= |s|
    ensures i + n <= |s| && AllDigits(s, i, i + n)
    ensures i + n == |s| || !IsDigit(s[i + n])
    decreases |s| - i
  {
    if i < |s| && IsDigit(s[i]) then 1 + DigitRun(s, i + 1) else 0
  }

  /** `\d{lo,hi}` and then the literal `sep`, matched at s[i]: the position after `sep`.
      Taking as many digits as allowed is the only choice that can be followed by a
      non-digit, so this single greedy try agrees with the regex engine's backtracking. */
  function Field(s: string, i: nat, lo: nat, hi: nat, sep: char): (r: Option<nat>)
    requires i <= |s| && !IsDigit(sep)
    ensures r.Some? ==> FieldAt(s, i, lo, hi, sep, r.value)
  {
    var n := Min(DigitRun(s, i), hi);
    AllDigitsPrefix(s, i, i + DigitRun(s, i), i + n);
    if lo <= n && i + n < |s| && s[i + n] == sep then Some(i + n + 1) else None
  }

  /** A digit field followed by a non-digit can be read in only one way, and `Field` reads it. */
  lemma FieldComplete(s: string, i: nat, lo: nat, hi: nat, sep: char, p: nat)
    requires i <= |s| && !IsDigit(sep) && FieldAt(s, i, lo, hi, sep, p)
    ensures Field(s, i, lo, hi, sep) == Some(p)
  {
    DigitRunUnique(s, i, p - i - 1);
  }

  /** A run of digits ended by a non-digit is the digit run. */
  lemma {:induction false} DigitRunUnique(s: string, i: nat, n: nat)
    requires i + n < |s| && AllDigits(s, i, i + n) && !IsDigit(s[i + n])
    ensures DigitRun(s, i) == n
    decreases n
  {
    if n > 0 {
      DigitRunUnique(s, i + 1, n - 1);
    }
  }

  /** The end of ` \d{1,2}:\d{2} (AM|PM) - `, the part of the header after the date,
      matched at s[p], if it matches there. */
  function MatchTime(s: string, p: nat): (r: Option<nat>)
    requires p <= |s|
    ensures r.Some? ==> p < r.value <= |s|
  {
    if p < |s| && s[p] == ' ' then
      match Field(s, p + 1, 1, 2, ':')
      case None => None
      case Some(p5) =>
        if Field(s, p5, 2, 2, ' ') == Some(p5 + 3) && MeridiemAt(s, p5 + 3) then Some(p5 + 8) else None
    else None
  }

  /** The end of the header matched at s[i], if it matches there. */
  function MatchHeader(s: string, i: nat): (r: Option<nat>)
    requires i <= |s|
    ensures r.Some? ==> i < r.value <= |s|
  {
    match Field(s, i, 1, 2, '/')
    case None => None
    case Some(p1) =>
      match Field(s, p1, 1, 2, '/')
      case None => None
      case Some(p2) =>
        match Field(s, p2, 2, 4, ',')
        case None => None
        case Some(p3) => MatchTime(s, p3)
  }

  /** The time part of the header is read where the header has it. */
  lemma MatchTimeComplete(s: string, i: nat, p1: nat, p2: nat, p3: nat, p5: nat, h: nat)
    requires HeaderWith(s, i, p1, p2, p3, p5, h)
    ensures MatchTime(s, p3) == Some(h)
  {
    FieldComplete(s, p3 + 1, 1, 2, ':', p5);
    FieldComplete(s, p5, 2, 2, ' ', p5 + 3);
  }

  /** Wherever the header matches at s[i], the matcher finds that very match:
      the header can be read in only one way from a given start. */
  lemma MatchHeaderComplete(s: string, i: nat, h: nat)
    requires i <= |s| && HeaderAt(s, i, h)
    ensures MatchHeader(s, i) == Some(h)
  {
    var p1: nat, p2: nat, p3: nat, p5: nat :| HeaderWith(s, i, p1, p2, p3, p5, h);
    FieldComplete(s, i, 1, 2, '/', p1);
    FieldComplete(s, p1, 1, 2, '/', p2);
    FieldComplete(s, p2, 2, 4, ',', p3);
    MatchTimeComplete(s, i, p1, p2, p3, p5, h);
  }

  /** Whatever the matcher reports is a match of the header. */
  lemma MatchHeaderSound(s: string, i: nat)
    requires i <= |s| && MatchHeader(s, i).Some?
    ensures HeaderAt(s, i, MatchHeader(s, i).value)
  {
    var p1 := Field(s, i, 1, 2, '/').value;
    var p2 := Field(s, p1, 1, 2, '/').value;
    var p3 := Field(s, p2, 2, 4, ',').value;
    var p5 := Field(s, p3 + 1, 1, 2, ':').value;
    assert HeaderWith(s, i, p1, p2, p3, p5, MatchHeader(s, i).value);
  }

  /** The matcher finds the header at s[i], ending at h, exactly when the header
      matches s[i..h]. */
  lemma MatchHeaderCorrect(s: string, i: nat, h: nat)
    requires i <= |s|
    ensures MatchHeader(s, i) == Some(h) <==> HeaderAt(s, i, h)
  {
    if MatchHeader(s, i) == Some(h) {
      MatchHeaderSound(s, i);
    }
    if HeaderAt(s, i, h) {
      MatchHeaderComplete(s, i, h);
    }
  }

  /** The lazy `.*?: ` run from s[h]: the first `": "` at or after h, unless a
      newline comes first. */
  function FindColonSpace(s: string, h: nat): (r: Option<nat>)
    requires h <= |s|
    ensures r.Some? ==> h <= r.value && ColonSpaceAt(s, r.value) && NoNewline(s, h, r.value)
    ensures r.Some? ==> forall j :: h <= j < r.value ==> !ColonSpaceAt(s, j)
    ensures r.None? ==> forall j :: h <= j && ColonSpaceAt(s, j) ==> !NoNewline(s, h, j)
    decreases |s| - h
  {
    if ColonSpaceAt(s, h) then Some(h)
    else if h == |s| || s[h] == '\n' then None
    else
      var r := FindColonSpace(s, h + 1);
      assert r.None? ==> forall j :: h < j && ColonSpaceAt(s, j) ==> !NoNewline(s, h + 1, j);
      r
  }

  /** Where the greedy `(.+)` starting at s[b] stops: the first newline at or after b, or the end. */
  function LineEnd(s: string, b: nat): (e: nat)
    requires b <= |s|
    ensures b <= e <= |s| && NoNewline(s, b, e) && (e == |s| || s[e] == '\n')
    decreases |s| - b
  {
    if b == |s| || s[b] == '\n' then b else LineEnd(s, b + 1)
  }

  /** In a string without newlines, `(.+)` runs to the end. */
  lemma LineEndOfOneLine(s: string, b: nat)
    requires b <= |s|
    ensures OneLine(s) ==> LineEnd(s, b) == |s|
  {
  }

  /** What `.*?: (.+)` captures when it starts at s[h], right after a header: a
      non-empty piece of one line. */
  function BodyAfter(s: string, h: nat): (r: Option<string>)
    requires h <= |s|
    ensures r.Some? ==> r.value != [] && OneLine(r.value)
  {
    match FindColonSpace(s, h)
    case None => None
    case Some(j) =>
      var e := LineEnd(s, j + 2);
      if j + 2 < e then
        Some(s[j + 2..e])
      else None
  }

  /** The second group of the match that starts at s[i], if the pattern matches there:
      none without a header at s[i], and otherwise a non-empty piece of one line. */
  function MatchAt(s: string, i: nat): (r: Option<string>)
    requires i <= |s|
    ensures MatchHeader(s, i).None? ==> r.None?
    ensures r.Some? ==> r.value != [] && OneLine(r.value)
  {
    match MatchHeader(s, i)
    case None => None
    case Some(h) => BodyAfter(s, h)
  }

  /** Only the first `": "` after the header needs trying: a later one can never rescue
      a failed body, because the character after the first is a space and `.` cannot
      run over the newline or the end of the line that made that body empty. */
  lemma BodyAfterComplete(s: string, h: nat, j: nat)
    requires h <= j && j + 2 < |s| && NoNewline(s, h, j) && ColonSpaceAt(s, j) && s[j + 2] != '\n'
    ensures BodyAfter(s, h).Some?
  {
    var j0 := FindColonSpace(s, h).value;
    assert j0 <= j;
    if j0 < j {
      assert j0 + 2 <= j;
      if j0 + 2 < j {
        assert s[j0 + 2] != '\n';
      }
    }
  }

  /** A match the matcher reports at s[i] is a match of the pattern there, with `.*?`
      stopping at the first `": "` and `(.+)` running to the end of the line. */
  lemma MatchAtSound(s: string, i: nat) returns (h: nat, j: nat)
    requires i <= |s| && MatchAt(s, i).Some?
    ensures MatchesAt(s, i, h, j)
    ensures MatchAt(s, i).value == s[j + 2..LineEnd(s, j + 2)]
    ensures forall j' :: h <= j' < j ==> !ColonSpaceAt(s, j')
  {
    h := MatchHeader(s, i).value;
    j := FindColonSpace(s, h).value;
    MatchHeaderSound(s, i);
  }

  /** Wherever the pattern matches at s[i], the matcher reports a match there. */
  lemma MatchAtComplete(s: string, i: nat, h: nat, j: nat)
    requires i <= |s| && MatchesAt(s, i, h, j)
    ensures MatchAt(s, i).Some?
  {
    MatchHeaderComplete(s, i, h);
    BodyAfterComplete(s, h, j);
  }

  /** The match attempt at each position of `s`; none past its end. */
  function Attempts(s: string): nat -> Option<string>
  {
    (k: nat) => if k <= |s| then MatchAt(s, k) else None
  }

  /** What the leftmost search returns is one attempt's value, at a match of the pattern. */
  lemma SearchSound(line: string)
    ensures var r := FirstSome(Attempts(line), 0, |line|);
      r.Some? ==> Matches(line) && r.value != [] && OneLine(r.value)
  {
    if FirstSome(Attempts(line), 0, |line|).Some? {
      var k := FirstSomeLeftmost(Attempts(line), 0, |line|);
      assert Attempts(line)(k) == MatchAt(line, k);
      var h, j := MatchAtSound(line, k);
    }
  }

  /** Wherever the pattern occurs, the leftmost search finds a match. */
  lemma SearchComplete(line: string)
    ensures Matches(line) ==> FirstSome(Attempts(line), 0, |line|).Some?
  {
    if Matches(line) {
      var i, h, j :| MatchesAt(line, i, h, j);
      MatchAtComplete(line, i, h, j);
      assert Attempts(line)(i).Some?;
    }
  }

  /** `re.search(pattern, line)` followed by `match.group(2)`: the second group of the
      leftmost match. A line yields a message exactly when the pattern occurs somewhere in
      it (otherwise `None`, and no error), and a message is a non-empty piece of one line. */
  function ExtractBody(line: string): (r: Option<string>)
    ensures r.Some? <==> Matches(line)
    ensures r.Some? ==> r.value != [] && OneLine(r.value)
  {
    SearchSound(line);
    SearchComplete(line);
    FirstSome(Attempts(line), 0, |line|)
  }

  /** No match starts before the first position whose attempt succeeds. */
  lemma NoEarlierMatch(s: string, k: nat)
    requires k <= |s| && forall k' :: 0 <= k' < k ==> Attempts(s)(k').None?
    ensures forall i: nat, h: nat, j: nat :: i < k ==> !MatchesAt(s, i, h, j)
  {
    forall i: nat, h: nat, j: nat | i < k ensures !MatchesAt(s, i, h, j) {
      assert Attempts(s)(i) == MatchAt(s, i);
      if MatchesAt(s, i, h, j) {
        MatchAtComplete(s, i, h, j);
      }
    }
  }

  /** The message taken from a line is group 2 of the leftmost match: the non-empty rest
      of the line after the first `": "` that follows the header, up to any newline. */
  lemma ExtractBodyIs(line: string) returns (i: nat, h: nat, j: nat)
    requires ExtractBody(line).Some?
    ensures MatchesAt(line, i, h, j)
    ensures forall i': nat, h': nat, j': nat :: i' < i ==> !MatchesAt(line, i', h', j')
    ensures forall j' :: h <= j' < j ==> !ColonSpaceAt(line, j')
    ensures ExtractBody(line).value == line[j + 2..LineEnd(line, j + 2)] != []
  {
    i := FirstSomeLeftmost(Attempts(line), 0, |line|);
    assert ExtractBody(line) == Attempts(line)(i) == MatchAt(line, i);
    h, j := MatchAtSound(line, i);
    NoEarlierMatch(line, i);
  }

  /** A one-line string whose header starts it yields what follows the first `": "`
      after the header. */
  lemma ExtractBodyFromStart(s: string, h: nat, j: nat)
    requires OneLine(s) && MatchesAt(s, 0, h, j)
    requires forall j' :: h <= j' < j ==> !ColonSpaceAt(s, j')
    ensures ExtractBody(s) == Some(s[j + 2..])
  {
    MatchHeaderComplete(s, 0, h);
    BodyAfterFirst(s, h, j);
    assert Attempts(s)(0) == MatchAt(s, 0);
  }

  /** In a one-line string, the body after a header is what follows the first `": "`. */
  lemma BodyAfterFirst(s: string, h: nat, j: nat)
    requires OneLine(s) && h <= j && j + 2 < |s| && ColonSpaceAt(s, j)
    requires forall j' :: h <= j' < j ==> !ColonSpaceAt(s, j')
    ensures BodyAfter(s, h) == Some(s[j + 2..])
  {
    assert NoNewline(s, h, j);
    assert FindColonSpace(s, h) == Some(j);
    LineEndOfOneLine(s, j + 2);
    assert s[j + 2..LineEnd(s, j + 2)] == s[j + 2..];
  }

  /** Two digits and then `sep`, written out character by character. */
  lemma TwoDigitField(s: string, i: nat, sep: char)
    requires i + 2 < |s| && IsDigit(s[i]) && IsDigit(s[i + 1]) && s[i + 2] == sep
    ensures FieldAt(s, i, 1, 2, sep, i + 3) && FieldAt(s, i, 2, 2, sep, i + 3) && FieldAt(s, i, 2, 4, sep, i + 3)
  {
    assert AllDigits(s, i + 1, i + 2);
  }

  /** The date of the example line below: `1/2/23, `. */
  lemma ExampleDate(s: string)
    requires s == "1/2/23, 10:30 AM - Alice: let's meet at 5"
    ensures FieldAt(s, 0, 1, 2, '/', 2) && FieldAt(s, 2, 1, 2, '/', 4) && FieldAt(s, 4, 2, 4, ',', 7) && s[7] == ' '
  {
    assert s[0] == '1' && s[1] == '/' && s[2] == '2' && s[3] == '/' && s[4] == '2' && s[5] == '3' && s[6] == ',';
    TwoDigitField(s, 4, ',');
  }

  /** The time of the example line below: `10:30 `. */
  lemma ExampleTime(s: string)
    requires s == "1/2/23, 10:30 AM - Alice: let's meet at 5"
    ensures FieldAt(s, 8, 1, 2, ':', 11) && FieldAt(s, 11, 2, 2, ' ', 14)
  {
    assert s[8] == '1' && s[9] == '0' && s[10] == ':' && s[11] == '3' && s[12] == '0' && s[13] == ' ';
    TwoDigitField(s, 8, ':');
    TwoDigitField(s, 11, ' ');
  }

  /** The meridiem of the example line below: `AM - `. */
  lemma ExampleMeridiem(s: string)
    requires s == "1/2/23, 10:30 AM - Alice: let's meet at 5"
    ensures MeridiemAt(s, 14)
  {
  }

  /** In the example line below the first `": "` after the header is at 24. */
  lemma ExampleBody(s: string)
    requires s == "1/2/23, 10:30 AM - Alice: let's meet at 5"
    ensures OneLine(s) && ColonSpaceAt(s, 24) && s[26] != '\n' && NoNewline(s, 19, 24)
    ensures forall j' :: 19 <= j' < 24 ==> !ColonSpaceAt(s, j')
    ensures s[26..] == "let's meet at 5"
  {
  }

  /** A line of an exported chat yields the text after the sender's name. */
  lemma ExtractBodyExample(s: string)
    requires s == "1/2/23, 10:30 AM - Alice: let's meet at 5"
    ensures ExtractBody(s) == Some("let's meet at 5")
  {
    ExampleDate(s);
    ExampleTime(s);
    ExampleMeridiem(s);
    assert HeaderWith(s, 0, 2, 4, 7, 11, 19);
    ExampleBody(s);
    assert MatchesAt(s, 0, 19, 24);
    ExtractBodyFromStart(s, 19, 24);
    assert ExtractBody(s) == Some(s[26..]);
  }

  /** What `extract_messages` returns: the message of every line that has one, in order;
      no more messages than lines, each a non-empty piece of one line. */
  function Messages(lines: seq<string>): (r: seq<string>)
    ensures |r| <= |lines|
    ensures forall k :: 0 <= k < |r| ==> r[k] != [] && OneLine(r[k])
  {
    FilterMap(lines, ExtractBody)
  }

  /** One more line adds its message, if it has one. */
  lemma MessagesStep(lines: seq<string>, n: nat)
    requires n < |lines|
    ensures Messages(lines[..n + 1])
      == Messages(lines[..n]) + (if ExtractBody(lines[n]).Some? then [ExtractBody(lines[n]).value] else [])
  {
    assert lines[..n + 1][..n] == lines[..n];
  }

  /** `extract_messages`. */
  method ExtractMessages(lines: seq<string>) returns (messages: seq<string>)
    ensures messages == Messages(lines)
  {
    messages := [];
    for n := 0 to |lines|
      invariant messages == Messages(lines[..n])
    {
      MessagesStep(lines, n);
      match ExtractBody(lines[n]) {
        case Some(b) => messages := messages + [b];
        case None =>
      }
    }
    assert lines[..|lines|] == lines;
  }

  /** The messages are the second groups of the lines in which the pattern occurs, one per
      such line and in the order of the lines; lines without a match contribute nothing. */
  lemma MessagesFollowLines(lines: seq<string>)
    ensures var idx := Selected(lines, ExtractBody);
      |Messages(lines)| == |idx| <= |lines| &&
      (forall a, b :: 0 <= a < b < |idx| ==> idx[a] < idx[b]) &&
      (forall i :: 0 <= i < |lines| ==> (i in idx <==> Matches(lines[i]))) &&
      (forall k :: 0 <= k < |idx| ==> ExtractBody(lines[idx[k]]) == Some(Messages(lines)[k]))
  {
  }
}

/** The offline assistant of xpii-chain/core/agent.py: a normaliser for the
    user's text, a keyword-scoring matcher over a fixed knowledge base, and
    the conversation history kept by the assistant object.

    The knowledge base's keyword lists are reproduced exactly; its answer
    texts and the fallback text are opaque strings handed to the assistant
    when it is built. */
module Agent {
  import opened Wrappers
  import opened Text

  // ---------------------------------------------------------------------
  // _normalise
  // ---------------------------------------------------------------------

  /** The regex class `\w`: ASCII letters, digits and `_`; any other
      non-ASCII character that is not whitespace is counted as a word
      character too. */
  predicate IsWordChar(c: char) {
    IsAsciiUpper(c) || IsAsciiLower(c) || IsDigit(c) || c == '_' ||
    (c as int >= 128 && !IsSpace(c))
  }

  /** `re.sub(r"[^\w\s]", " ", text)`: punctuation becomes a space. */
  function Depunctuate(s: string): (r: string)
    ensures |r| == |s|
    ensures forall i :: 0 <= i < |s| ==>
              r[i] == (if IsWordChar(s[i]) || IsSpace(s[i]) then s[i] else ' ')
  {
    seq(|s|, i requires 0 <= i < |s| => if IsWordChar(s[i]) || IsSpace(s[i]) then s[i] else ' ')
  }

  /** `re.sub(r"\s+", " ", text)`: every maximal run of whitespace becomes
      one space. The result holds no two spaces in a row. */
  function Collapse(s: string): (r: string)
    ensures forall i :: 0 <= i < |r| - 1 ==> r[i] != ' ' || r[i + 1] != ' '
    ensures s != [] && !IsSpace(s[0]) ==> r != [] && r[0] == s[0]
    ensures s != [] && IsSpace(s[0]) ==> r != [] && r[0] == ' '
    decreases |s|
  {
    if s == [] then []
    else if IsSpace(s[0]) then
      var rest := TrimStart(s);
      assert rest != [] ==> rest[0] == s[|s| - |rest|];
      [' '] + Collapse(rest)
    else
      [s[0]] + Collapse(s[1..])
  }

  /** Only lower-case word characters and whitespace. */
  predicate WordsAndSpaces(s: string) {
    forall i :: 0 <= i < |s| ==> !IsAsciiUpper(s[i]) && (IsWordChar(s[i]) || IsSpace(s[i]))
  }

  /** Only lower-case word characters and the plain space. */
  predicate WordsAndBlanks(s: string) {
    forall i :: 0 <= i < |s| ==> !IsAsciiUpper(s[i]) && (IsWordChar(s[i]) || s[i] == ' ')
  }

  /** No two spaces in a row. */
  predicate SingleSpaced(s: string) {
    forall i :: 0 <= i < |s| - 1 ==> s[i] != ' ' || s[i + 1] != ' '
  }

  /** Lower-case, punctuation-free, single-spaced and trimmed. */
  predicate NormalForm(n: string) {
    WordsAndBlanks(n) && SingleSpaced(n) && Trimmed(n)
  }

  /** `_normalise`: lower-case, replace punctuation, collapse whitespace,
      strip. */
  function Normalise(text: string): (n: string)
    ensures NormalForm(n)
  {
    var words := Depunctuate(Lower(text));
    var collapsed := Collapse(words);
    DepunctuatedLower(text);
    CollapsedWords(words);
    StrippedCollapsed(collapsed);
    Strip(collapsed)
  }

  /** The normalised text is the words of the lowered, depunctuated text
      joined by single spaces. */
  lemma NormaliseIsJoinedWords(text: string)
    ensures Normalise(text) == Joined(Words(Depunctuate(Lower(text))))
  {
    StripCollapseIsJoinedWords(Depunctuate(Lower(text)));
  }

  /** A single space standing for a leading whitespace run of `s`. */
  function LeadGap(s: string): string {
    if s != [] && IsSpace(s[0]) then " " else []
  }

  /** A single space standing for a trailing whitespace run of `s` that
      follows a word. */
  function TrailGap(s: string): string {
    if TrimStart(s) != [] && IsSpace(s[|s| - 1]) then " " else []
  }

  /** `re.sub(r"\s+", " ", s)` keeps the words of `s` in order with one
      space between each two, and one space for a whitespace run at either
      end. */
  lemma {:induction false} CollapseIsJoinedWords(s: string)
    ensures Collapse(s) == LeadGap(s) + Joined(Words(s)) + TrailGap(s)
    decreases |s|
  {
    if s == [] {
    } else if IsSpace(s[0]) {
      var t := TrimStart(s);
      assert t == TrimStart(s[1..]);
      CollapseIsJoinedWords(t);
      CollapseSpaceCase(s);
    } else {
      CollapseIsJoinedWords(s[WordLen(s)..]);
      CollapseWordCase(s);
    }
  }

  /** The step of `CollapseIsJoinedWords` over a leading whitespace run. */
  lemma CollapseSpaceCase(s: string)
    requires s != [] && IsSpace(s[0])
    requires var t := TrimStart(s);
             Collapse(t) == LeadGap(t) + Joined(Words(t)) + TrailGap(t)
    ensures Collapse(s) == LeadGap(s) + Joined(Words(s)) + TrailGap(s)
  {
    var t := TrimStart(s);
    TrimStartGaps(s);
    GapInFront(Collapse(t), LeadGap(t), Joined(Words(t)), TrailGap(t));
  }

  /** Dropping leading whitespace keeps the words and the trailing gap. */
  lemma TrimStartGaps(s: string)
    requires s != [] && IsSpace(s[0])
    ensures LeadGap(TrimStart(s)) == []
    ensures Words(TrimStart(s)) == Words(s)
    ensures TrailGap(TrimStart(s)) == TrailGap(s)
  {
    var t := TrimStart(s);
    assert TrimStart(t) == t;
    if t != [] {
      assert t[|t| - 1] == s[|s| - 1];
    }
  }

  /** The step of `CollapseIsJoinedWords` over a leading word. */
  lemma CollapseWordCase(s: string)
    requires s != [] && !IsSpace(s[0])
    requires var rest := s[WordLen(s)..];
             Collapse(rest) == LeadGap(rest) + Joined(Words(rest)) + TrailGap(rest)
    ensures Collapse(s) == LeadGap(s) + Joined(Words(s)) + TrailGap(s)
  {
    var w := s[..WordLen(s)];
    var rest := s[WordLen(s)..];
    var ws := Words(rest);
    CollapseWordFirst(s);
    WordsFirst(s);
    TrailGapAfterWord(s);
    if rest == [] {
      assert Collapse(rest) == [] && ws == [];
      assert Joined([w] + ws) == w by {
        assert [w] + ws == [w];
      }
      WordThenNothing(Collapse(s), w, Collapse(rest), Joined([w] + ws));
    } else if ws == [] {
      assert Joined([w] + ws) == w by {
        assert [w] + ws == [w];
      }
      WordThenGap(Collapse(s), w, Collapse(rest), LeadGap(rest), Joined(ws), TrailGap(rest));
    } else {
      JoinedCons(w, ws);
      WordThenWords(Collapse(s), w, Collapse(rest), LeadGap(rest), Joined(ws), TrailGap(rest));
    }
  }

  /** After a leading word, the trailing gap is that of the rest, or a
      space when the rest is all whitespace. */
  lemma TrailGapAfterWord(s: string)
    requires s != [] && !IsSpace(s[0])
    ensures var rest := s[WordLen(s)..];
            TrailGap(s) == if rest == [] then [] else if Words(rest) == [] then " " else TrailGap(rest)
    ensures var rest := s[WordLen(s)..];
            rest != [] ==> LeadGap(rest) == " "
  {
    var rest := s[WordLen(s)..];
    if rest != [] {
      assert s[|s| - 1] == rest[|rest| - 1];
      if Words(rest) == [] {
        AllSpaceWithoutWords(rest);
      }
    }
  }

  // GapInFront, WordThenNothing, WordThenGap, WordThenWords and Regroup below
  // have no counterpart in agent.py: each is one step of sequence
  // concatenation, stated over plain parameters so that the solver does not
  // have to regroup concatenations of function applications itself.

  /** `" " + (l + j + g)` with `l` empty. */
  lemma GapInFront(c: string, l: string, j: string, g: string)
    requires c == l + j + g && l == []
    ensures " " + c == " " + j + g
  {
  }

  /** `w + c` with `c` empty. */
  lemma WordThenNothing(x: string, w: string, c: string, j: string)
    requires x == w + c && c == [] && j == w
    ensures x == [] + j + []
  {
  }

  /** `w + c` where `c` is a lone gap. */
  lemma WordThenGap(x: string, w: string, c: string, l: string, j: string, g: string)
    requires x == w + c && c == l + j + g && l == " " && j == [] && g == []
    ensures x == [] + w + " "
  {
  }

  /** `w + c` where `c` is a gap and more words. */
  lemma WordThenWords(x: string, w: string, c: string, l: string, j: string, g: string)
    requires x == w + c && c == l + j + g && l == " "
    ensures x == [] + (w + " " + j) + g
  {
  }

  /** A string that starts with a word splits into that word and the words
      after it. */
  lemma WordsFirst(s: string)
    requires s != [] && !IsSpace(s[0])
    ensures Words(s) == [s[..WordLen(s)]] + Words(s[WordLen(s)..])
  {
    assert TrimStart(s) == s;
  }

  /** Joining one more word in front adds it and a space. */
  lemma JoinedCons(w: string, ws: seq<string>)
    requires ws != []
    ensures Joined([w] + ws) == w + " " + Joined(ws)
  {
    assert ([w] + ws)[1..] == ws;
  }

  /** A string without words is all whitespace. */
  lemma AllSpaceWithoutWords(s: string)
    requires Words(s) == []
    ensures AllSpace(s)
  {
    assert TrimStart(s) == [];
    assert s[..|s|] == s;
  }

  /** A string that starts with a word collapses to that word followed by
      the collapse of what comes after it. */
  lemma {:induction false} CollapseWordFirst(t: string)
    requires t != [] && !IsSpace(t[0])
    ensures Collapse(t) == t[..WordLen(t)] + Collapse(t[WordLen(t)..])
    decreases |t|
  {
    var n := WordLen(t);
    var tail := t[1..];
    if n == 1 {
      assert t[..1] == [t[0]] && tail == t[1..];
    } else {
      assert WordLen(tail) == n - 1;
      CollapseWordFirst(tail);
      assert tail[..n - 1] == t[1..n] && tail[n - 1..] == t[n..];
      assert t[..n] == [t[0]] + t[1..n];
      Regroup(Collapse(t), [t[0]], Collapse(tail), t[1..n], Collapse(t[n..]), t[..n]);
    }
  }

  /** `x == a + (b + c)` regrouped as `(a + b) + c`; a solver aid like
      GapInFront, with no counterpart in agent.py. */
  lemma Regroup(x: string, a: string, y: string, b: string, c: string, d: string)
    requires x == a + y && y == b + c && d == a + b
    ensures x == d + c
  {
  }


  /** Collapsing whitespace, then stripping, gives the words joined by
      single spaces. */
  lemma StripCollapseIsJoinedWords(s: string)
    ensures Strip(Collapse(s)) == Joined(Words(s))
  {
    var j := Joined(Words(s));
    CollapseIsJoinedWords(s);
    WordsAreWords(s);
    JoinedTrimmed(Words(s));
    GapsAllSpace(s);
    StripPadded(LeadGap(s), j, TrailGap(s));
  }

  /** Both gaps are whitespace. */
  lemma GapsAllSpace(s: string)
    ensures AllSpace(LeadGap(s)) && AllSpace(TrailGap(s))
  {
    assert IsSpace(' ');
  }

  /** After lower-casing and replacing punctuation, only lower-case word
      characters and whitespace are left. */
  lemma DepunctuatedLower(text: string)
    ensures WordsAndSpaces(Depunctuate(Lower(text)))
  {
    var lowered := Lower(text);
    var w := Depunctuate(lowered);
    forall i | 0 <= i < |w|
      ensures !IsAsciiUpper(w[i]) && (IsWordChar(w[i]) || IsSpace(w[i]))
    {
      assert !IsAsciiUpper(lowered[i]);
    }
  }

  /** Collapsing leaves lower-case word characters and single spaces. */
  lemma {:induction false} CollapsedWords(w: string)
    requires WordsAndSpaces(w)
    ensures WordsAndBlanks(Collapse(w))
    decreases |w|
  {
    if w != [] {
      var rest := if IsSpace(w[0]) then TrimStart(w) else w[1..];
      assert rest == w[|w| - |rest|..];
      assert WordsAndSpaces(rest) by {
        forall i | 0 <= i < |rest|
          ensures rest[i] == w[|w| - |rest| + i]
        {
        }
      }
      CollapsedWords(rest);
      var head := if IsSpace(w[0]) then ' ' else w[0];
      assert Collapse(w) == [head] + Collapse(rest);
      ConsBlanks(head, Collapse(rest));
    }
  }

  lemma ConsBlanks(c: char, s: string)
    requires !IsAsciiUpper(c) && (IsWordChar(c) || c == ' ') && WordsAndBlanks(s)
    ensures WordsAndBlanks([c] + s)
  {
    var t := [c] + s;
    forall i | 0 < i < |t|
      ensures t[i] == s[i - 1]
    {
    }
  }

  /** Stripping a collapsed string puts it in normal form. */
  lemma StrippedCollapsed(c: string)
    requires WordsAndBlanks(c) && SingleSpaced(c)
    ensures NormalForm(Strip(c))
  {
    SliceNormal(c, StripOffset(c), |Strip(c)|);
  }

  /** A slice of a single-spaced string of word characters and blanks is
      one too. */
  lemma SliceNormal(c: string, a: nat, len: nat)
    requires WordsAndBlanks(c) && SingleSpaced(c) && a + len <= |c|
    ensures WordsAndBlanks(c[a..a + len]) && SingleSpaced(c[a..a + len])
  {
    var n := c[a..a + len];
    forall i | 0 <= i < |n|
      ensures n[i] == c[a + i]
    {
    }
  }

  /** Collapsing a string that is already single-spaced, and whose only
      whitespace is the plain space, changes nothing. */
  lemma {:induction false} CollapseSingleSpaced(s: string)
    requires WordsAndBlanks(s) && SingleSpaced(s)
    ensures Collapse(s) == s
    decreases |s|
  {
    if s != [] {
      var tail := s[1..];
      TailNormal(s);
      CollapseSingleSpaced(tail);
      if IsSpace(s[0]) {
        SpaceThenWord(s);
      }
      assert Collapse(s) == [s[0]] + Collapse(tail);
      assert s == [s[0]] + tail;
    }
  }

  lemma TailNormal(s: string)
    requires s != [] && WordsAndBlanks(s) && SingleSpaced(s)
    ensures WordsAndBlanks(s[1..]) && SingleSpaced(s[1..])
  {
    var tail := s[1..];
    forall i | 0 <= i < |tail|
      ensures tail[i] == s[i + 1]
    {
    }
  }

  /** In a single-spaced string of word characters and blanks, a leading
      space is a blank followed by a word character, so trimming removes
      it alone. */
  lemma SpaceThenWord(s: string)
    requires s != [] && IsSpace(s[0]) && WordsAndBlanks(s) && SingleSpaced(s)
    ensures s[0] == ' ' && TrimStart(s) == s[1..]
  {
    var tail := s[1..];
    if tail != [] {
      assert tail[0] == s[1];
      assert !IsSpace(tail[0]);
    }
    assert TrimStart(tail) == tail;
  }

  /** A string in normal form is its own normalisation. */
  lemma NormalFormFixed(n: string)
    requires NormalForm(n)
    ensures Normalise(n) == n
  {
    assert Lower(n) == n;
    assert Depunctuate(n) == n;
    CollapseSingleSpaced(n);
    StripPadded([], n, []);
    assert [] + n + [] == n;
  }

  /** `_normalise` is idempotent. */
  lemma NormaliseIdempotent(text: string)
    ensures Normalise(Normalise(text)) == Normalise(text)
  {
    NormalFormFixed(Normalise(text));
  }

  // ---------------------------------------------------------------------
  // _match
  // ---------------------------------------------------------------------

  /** A knowledge-base entry: its keywords and its answer. */
  datatype Entry = Entry(keywords: seq<string>, response: string)

  /** The keyword lists of `_KB`, in order. */
  const KEYWORDS: seq<seq<string>> := [
    ["hello", "hi", "hey", "greetings", "good morning", "good afternoon"],
    ["what is xpii", "what does xpii", "explain xpii", "about xpii", "xpii chain"],
    ["how to submit", "submit document", "how do i submit", "upload", "select file",
     "select document", "open file", "choose file"],
    ["author", "what is author", "author field"],
    ["session id", "session", "what is session"],
    ["pipeline", "phases", "unpack", "edit", "pack", "staple", "how does it work",
     "how it works", "process"],
    ["output", "where is", "save", "saved file", "find the file"],
    ["error", "failed", "not working", "crash", "problem", "issue", "bug"],
    ["compliance", "regulation", "legal", "eu ai act", "finra", "nist", "audit",
     "zero trust", "zta"],
    ["help", "commands", "what can you do", "options", "topics"]
  ]

  /** `_KB`, pairing each keyword list with its answer. */
  function KnowledgeBase(responses: seq<string>): (kb: seq<Entry>)
    requires |responses| == |KEYWORDS|
    ensures |kb| == |KEYWORDS|
    ensures forall i :: 0 <= i < |kb| ==> kb[i] == Entry(KEYWORDS[i], responses[i])
  {
    seq(|KEYWORDS|, i requires 0 <= i < |KEYWORDS| => Entry(KEYWORDS[i], responses[i]))
  }

  /** `sum(1 for kw in keywords if kw in normalised)`: how many keywords
      occur in the input, a keyword listed twice counting twice. */
  function Score(keywords: seq<string>, s: string): (n: nat)
    ensures n <= |keywords|
    ensures n == 0 <==> forall k :: 0 <= k < |keywords| ==> !Contains(s, keywords[k])
    ensures n == |keywords| <==> forall k :: 0 <= k < |keywords| ==> Contains(s, keywords[k])
  {
    if keywords == [] then 0
    else
      var init := keywords[..|keywords| - 1];
      assert forall k :: 0 <= k < |init| ==> init[k] == keywords[k];
      Score(init, s) + if Contains(s, keywords[|keywords| - 1]) then 1 else 0
  }

  /** The best score over the entries. */
  function MaxScore(kb: seq<Entry>, s: string): (m: nat)
    ensures forall i :: 0 <= i < |kb| ==> Score(kb[i].keywords, s) <= m
    ensures kb != [] ==> exists i :: 0 <= i < |kb| && Score(kb[i].keywords, s) == m
    ensures kb == [] ==> m == 0
  {
    if kb == [] then 0
    else
      var init := kb[..|kb| - 1];
      assert forall i :: 0 <= i < |init| ==> init[i] == kb[i];
      var m0 := MaxScore(init, s);
      var last := Score(kb[|kb| - 1].keywords, s);
      if last > m0 then last else m0
  }

  /** The entry the scan keeps: the earliest one whose score is the best
      score, or none when every score is 0. */
  function Best(kb: seq<Entry>, s: string): (b: Option<nat>)
    ensures b.None? <==> MaxScore(kb, s) == 0
    ensures b.Some? ==> b.value < |kb| && Score(kb[b.value].keywords, s) == MaxScore(kb, s) &&
                        forall j :: 0 <= j < b.value ==> Score(kb[j].keywords, s) < MaxScore(kb, s)
  {
    if kb == [] then None
    else
      var init := kb[..|kb| - 1];
      assert forall i :: 0 <= i < |init| ==> init[i] == kb[i];
      if Score(kb[|kb| - 1].keywords, s) > MaxScore(init, s) then Some(|kb| - 1)
      else Best(init, s)
  }

  /** What `_match` returns for the normalised input `s`. */
  function Answer(kb: seq<Entry>, s: string, fallback: string): (a: string)
    ensures MaxScore(kb, s) == 0 ==> a == fallback
    ensures MaxScore(kb, s) > 0 ==>
              exists i :: 0 <= i < |kb| && a == kb[i].response &&
                          Score(kb[i].keywords, s) == MaxScore(kb, s) &&
                          forall j :: 0 <= j < i ==> Score(kb[j].keywords, s) < MaxScore(kb, s)
  {
    match Best(kb, s)
    case None => fallback
    case Some(i) => kb[i].response
  }

  /** When every entry scores 0 the answer is the fallback. */
  lemma AnswerFallback(kb: seq<Entry>, s: string, fallback: string)
    requires forall j :: 0 <= j < |kb| ==> Score(kb[j].keywords, s) == 0
    ensures Answer(kb, s, fallback) == fallback
  {
    if kb != [] {
      var i :| 0 <= i < |kb| && Score(kb[i].keywords, s) == MaxScore(kb, s);
    }
  }

  /** The answer is that of the entry with the highest score, the earliest
      one among equal highest scores. */
  lemma AnswerEarliestMaximal(kb: seq<Entry>, s: string, fallback: string, i: nat)
    requires i < |kb| && Score(kb[i].keywords, s) > 0
    requires forall j :: 0 <= j < |kb| ==> Score(kb[j].keywords, s) <= Score(kb[i].keywords, s)
    requires forall j :: 0 <= j < i ==> Score(kb[j].keywords, s) < Score(kb[i].keywords, s)
    ensures Answer(kb, s, fallback) == kb[i].response
  {
    var b := Best(kb, s);
    assert b.Some?;
  }

  /** The answer is the fallback or the answer of a best-scoring entry. */
  lemma AnswerFallbackIff(kb: seq<Entry>, s: string, fallback: string)
    requires forall j :: 0 <= j < |kb| ==> kb[j].response != fallback
    ensures Answer(kb, s, fallback) == fallback <==>
            forall j :: 0 <= j < |kb| ==> Score(kb[j].keywords, s) == 0
  {
    if Best(kb, s).None? && kb != [] {
      var i :| 0 <= i < |kb| && Score(kb[i].keywords, s) == MaxScore(kb, s);
    }
  }

  /** The answer of the chosen entry, if any. */
  function ResponseOf(kb: seq<Entry>, b: Option<nat>): Option<string> {
    if b.Some? && b.value < |kb| then Some(kb[b.value].response) else None
  }

  /** One more entry scanned: the best score and chosen entry change only
      on a strictly higher score. */
  lemma ScanStep(kb: seq<Entry>, i: nat, s: string)
    requires i < |kb|
    ensures var score := Score(kb[i].keywords, s);
            var m := MaxScore(kb[..i], s);
            MaxScore(kb[..i + 1], s) == (if score > m then score else m) &&
            Best(kb[..i + 1], s) == (if score > m then Some(i) else Best(kb[..i], s))
  {
    assert kb[..i + 1][..i] == kb[..i];
    assert kb[..i + 1][i] == kb[i];
  }

  /** `_match`: one pass over the entries, keeping a new best only on a
      strictly higher score. */
  method Match(kb: seq<Entry>, normalised: string, fallback: string) returns (answer: string)
    ensures answer == Answer(kb, normalised, fallback)
  {
    var bestEntry: Option<string> := None;
    var bestScore := 0;
    for i := 0 to |kb|
      invariant bestScore == MaxScore(kb[..i], normalised)
      invariant bestEntry == ResponseOf(kb, Best(kb[..i], normalised))
    {
      ScanStep(kb, i, normalised);
      var score := Score(kb[i].keywords, normalised);
      if score > bestScore {
        bestScore := score;
        bestEntry := Some(kb[i].response);
      }
    }
    assert kb[..|kb|] == kb;
    answer := if bestScore > 0 then bestEntry.value else fallback;
  }

  // ---------------------------------------------------------------------
  // The assistant object
  // ---------------------------------------------------------------------

  /** `[HH:MM:SS] AGENT > answer` */
  function Stamped(timestamp: string, answer: string): (r: string)
    ensures |r| == |timestamp| + |answer| + 11
    ensures r[0] == '[' && r[1..|timestamp| + 1] == timestamp
    ensures r[|timestamp| + 1..|timestamp| + 11] == "] AGENT > "
    ensures r[|r| - |answer|..] == answer
  {
    "[" + timestamp + "] AGENT > " + answer
  }

  /** `LocalAssistantAgent`: the knowledge base and the history of
      (input, response) pairs. */
  class LocalAssistant {
    const kb: seq<Entry>
    const fallback: string
    var history: seq<(string, string)>

    /** Built over `_KB` with the given answer texts. */
    constructor (responses: seq<string>, fallback: string)
      requires |responses| == |KEYWORDS|
      ensures kb == KnowledgeBase(responses) && this.fallback == fallback && history == []
    {
      kb := KnowledgeBase(responses);
      this.fallback := fallback;
      history := [];
    }

    /** `respond`: normalise, match, stamp with the clock reading and
        record the raw input with the response. */
    method Respond(userInput: string, timestamp: string) returns (response: string)
      modifies this`history
      ensures response == Stamped(timestamp, Answer(kb, Normalise(userInput), fallback))
      ensures history == old(history) + [(userInput, response)]
    {
      var normalised := Normalise(userInput);
      var answer := Match(kb, normalised, fallback);
      response := Stamped(timestamp, answer);
      history := history + [(userInput, response)];
    }

    /** The `history` property: a copy of the pairs so far. */
    method History() returns (pairs: seq<(string, string)>)
      ensures pairs == history
    {
      pairs := history;
    }

    /** `clear_history` */
    method ClearHistory()
      modifies this`history
      ensures history == []
    {
      history := [];
    }
  }
}

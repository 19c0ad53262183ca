/** Python string operations the core relies on, over `string` (a sequence of
    Unicode code points): `str.isspace`, `str.strip()`, the `in` operator on
    strings, `str.split` on a one-character separator, `str.replace(p, "")`,
    slicing `s[:n]` and ASCII case mapping. */
module Text {

  /** Python's `str.isspace` (and the regex class `\s` on `str` patterns):
      the code points U+0009..U+000D, U+001C..U+0020, U+0085, U+00A0,
      U+1680, U+2000..U+200A, U+2028, U+2029, U+202F, U+205F and U+3000. */
  predicate IsSpace(c: char) {
    var n := c as int;
    (0x09 <= n <= 0x0D) || (0x1C <= n <= 0x20) || n == 0x85 || n == 0xA0 ||
    n == 0x1680 || (0x2000 <= n <= 0x200A) || n == 0x2028 || n == 0x2029 ||
    n == 0x202F || n == 0x205F || n == 0x3000
  }

  predicate AllSpace(s: string) {
    forall i :: 0 <= i < |s| ==> IsSpace(s[i])
  }

  /** Neither starts nor ends with whitespace. */
  predicate Trimmed(s: string) {
    s == [] || (!IsSpace(s[0]) && !IsSpace(s[|s| - 1]))
  }

  /** `s.lstrip()`: the longest suffix of `s` not starting with whitespace. */
  function TrimStart(s: string): (r: string)
    ensures |r| <= |s| && r == s[|s| - |r|..]
    ensures AllSpace(s[..|s| - |r|])
    ensures r == [] || !IsSpace(r[0])
    decreases |s|
  {
    if s != [] && IsSpace(s[0]) then
      var r := TrimStart(s[1..]);
      assert s[1..][|s| - 1 - |r|..] == s[|s| - |r|..];
      assert s[..|s| - |r|] == [s[0]] + s[1..][..|s| - 1 - |r|];
      r
    else s
  }

  /** `s.rstrip()`: the longest prefix of `s` not ending with whitespace. */
  function TrimEnd(s: string): (r: string)
    ensures |r| <= |s| && r == s[..|r|]
    ensures AllSpace(s[|r|..])
    ensures r == [] || !IsSpace(r[|r| - 1])
    decreases |s|
  {
    if s != [] && IsSpace(s[|s| - 1]) then
      var init := s[..|s| - 1];
      var r := TrimEnd(init);
      assert init[..|r|] == s[..|r|];
      assert s[|r|..] == init[|r|..] + [s[|s| - 1]];
      r
    else s
  }

  /** `s.strip()`: the slice of `s` left when whitespace is removed from
      both ends. */
  function Strip(s: string): (r: string)
    ensures Trimmed(r)
    ensures |r| <= |s|
    ensures forall i :: 0 <= i < |r| ==> r[i] in s
  {
    var t := TrimStart(s);
    var r := TrimEnd(t);
    assert r != [] ==> r[0] == t[0];
    r
  }

  /** Where `s.strip()` begins within `s`: the result is the slice of `s`
      at that offset, and only whitespace lies before and after it. */
  function StripOffset(s: string): (a: nat)
    ensures a + |Strip(s)| <= |s| && Strip(s) == s[a..a + |Strip(s)|]
    ensures AllSpace(s[..a]) && AllSpace(s[a + |Strip(s)|..])
  {
    var t := TrimStart(s);
    var r := Strip(s);
    assert r == t[..|r|];
    assert AllSpace(s[|s| - |t| + |r|..]) by {
      assert s[|s| - |t| + |r|..] == t[|r|..];
    }
    |s| - |t|
  }

  /** `s.strip()` is empty exactly when every character of `s` is whitespace. */
  lemma {:induction false} StripEmptyIff(s: string)
    ensures Strip(s) == [] <==> AllSpace(s)
  {
    var t := TrimStart(s);
    var k := |s| - |t|;
    assert forall j :: 0 <= j < k ==> IsSpace(s[j]) by {
      assert forall j :: 0 <= j < k ==> s[..k][j] == s[j];
    }
    assert forall j :: k <= j < |s| ==> s[j] == t[j - k];
    assert t[0..] == t;
  }

  /** A leading space makes no difference to `strip()`. */
  lemma StripSpaceCons(s: string)
    ensures Strip([' '] + s) == Strip(s)
  {
    assert TrimStart([' '] + s) == TrimStart(s) by {
      assert ([' '] + s)[1..] == s;
      assert IsSpace(([' '] + s)[0]);
    }
  }

  /** A trimmed string strips to itself. */
  lemma StripTrimmed(s: string)
    requires Trimmed(s)
    ensures Strip(s) == s
  {
  }

  /** Stripping whitespace padding from a trimmed string gives it back. */
  lemma {:induction false} StripPadded(pre: string, s: string, post: string)
    requires AllSpace(pre) && AllSpace(post) && Trimmed(s)
    ensures Strip(pre + s + post) == s
  {
    var x := pre + s + post;
    if s == [] {
      var ps := pre + post;
      assert x == ps;
      assert AllSpace(ps) by {
        assert forall i :: 0 <= i < |ps| ==> ps[i] == if i < |pre| then pre[i] else post[i - |pre|];
      }
      StripEmptyIff(ps);
    } else {
      var u := s + post;
      assert x == pre + u && u[0] == s[0];
      TrimStartPadded(pre, u, s);
      TrimEndPadded(s, post);
    }
  }

  lemma {:induction false} TrimStartPadded(pre: string, t: string, s: string)
    requires AllSpace(pre) && (t == [] || !IsSpace(t[0]))
    ensures TrimStart(pre + t) == t
    decreases |pre|
  {
    if pre == [] {
      assert pre + t == t;
    } else {
      assert (pre + t)[1..] == pre[1..] + t;
      TrimStartPadded(pre[1..], t, s);
    }
  }

  lemma {:induction false} TrimEndPadded(s: string, post: string)
    requires AllSpace(post) && (s == [] || !IsSpace(s[|s| - 1]))
    ensures TrimEnd(s + post) == s
    decreases |post|
  {
    if post == [] {
      assert s + post == s;
    } else {
      var p := post[..|post| - 1];
      assert (s + post)[..|s + post| - 1] == s + p;
      assert IsSpace(post[|post| - 1]);
      TrimEndPadded(s, p);
    }
  }

  /** `s` begins with `pat`. */
  predicate StartsWith(s: string, pat: string) {
    |pat| <= |s| && s[..|pat|] == pat
  }

  /** Python's `pat in s` for strings, scanning left to right. The empty
      pattern is in every string, and no pattern is in a shorter string. */
  predicate Contains(s: string, pat: string)
    ensures pat == [] ==> Contains(s, pat)
    ensures Contains(s, pat) ==> |pat| <= |s|
    decreases |s|
  {
    StartsWith(s, pat) || (s != [] && Contains(s[1..], pat))
  }

  /** `pat` occurs in `s` starting at index `i`. */
  predicate OccursAt(s: string, pat: string, i: int) {
    0 <= i <= |s| - |pat| && s[i..i + |pat|] == pat
  }

  /** `Contains` agrees with the positional definition of a substring. */
  lemma {:induction false} ContainsIff(s: string, pat: string)
    ensures Contains(s, pat) <==> exists i :: OccursAt(s, pat, i)
    decreases |s|
  {
    if StartsWith(s, pat) {
      assert OccursAt(s, pat, 0);
    } else if s == [] {
    } else {
      ContainsIff(s[1..], pat);
      if exists i :: OccursAt(s, pat, i) {
        var i :| OccursAt(s, pat, i);
        assert i != 0;
        assert s[1..][i - 1..i - 1 + |pat|] == s[i..i + |pat|];
        assert OccursAt(s[1..], pat, i - 1);
      }
      if Contains(s[1..], pat) {
        var i :| OccursAt(s[1..], pat, i);
        assert s[i + 1..i + 1 + |pat|] == s[1..][i..i + |pat|];
        assert OccursAt(s, pat, i + 1);
      }
    }
  }

  /** A character `c` occurs in `s` as a one-character substring exactly
      when it is an element of `s`. */
  lemma ContainsChar(s: string, c: char)
    ensures Contains(s, [c]) <==> c in s
  {
    ContainsIff(s, [c]);
    if c in s {
      var i :| 0 <= i < |s| && s[i] == c;
      assert s[i..i + 1] == [c];
      assert OccursAt(s, [c], i);
    }
    if Contains(s, [c]) {
      var i :| OccursAt(s, [c], i);
      assert s[i] == s[i..i + 1][0];
    }
  }

  /** A pattern that neither starts nor ends with a space gains no
      occurrence when `s` is padded with one space on each side. */
  lemma PaddedContains(s: string, pat: string)
    requires pat != [] && pat[0] != ' ' && pat[|pat| - 1] != ' '
    ensures Contains([' '] + s + [' '], pat) ==> Contains(s, pat)
  {
    var t := [' '] + s + [' '];
    ContainsIff(t, pat);
    ContainsIff(s, pat);
    if Contains(t, pat) {
      var i :| OccursAt(t, pat, i);
      assert t[i..i + |pat|][0] == pat[0];
      assert t[i..i + |pat|][|pat| - 1] == pat[|pat| - 1];
      assert i != 0;
      assert i + |pat| != |t|;
      assert t[i..i + |pat|] == s[i - 1..i - 1 + |pat|];
      assert OccursAt(s, pat, i - 1);
    }
  }

  /** A string contains its own prefix. */
  lemma ContainsLeading(pat: string, s: string)
    ensures Contains(pat + s, pat)
  {
    assert (pat + s)[..|pat|] == pat;
  }

  /** A longer string contains what its tail contains. */
  lemma ContainsCons(c: char, s: string, pat: string)
    ensures Contains(s, pat) ==> Contains([c] + s, pat)
  {
    assert ([c] + s)[1..] == s;
  }

  /** Every occurrence of a pattern begins with the pattern's first character. */
  lemma ContainsFirst(s: string, pat: string)
    requires pat != []
    ensures Contains(s, pat) ==> pat[0] in s
  {
    ContainsIff(s, pat);
    if Contains(s, pat) {
      var i :| OccursAt(s, pat, i);
      assert s[i..i + |pat|][0] == s[i];
    }
  }

  /** Python's `s.replace(pat, "")`: every non-overlapping occurrence of
      `pat`, found left to right, is deleted. */
  function RemoveAll(s: string, pat: string): (r: string)
    requires pat != []
    ensures |r| <= |s|
    ensures forall i :: 0 <= i < |r| ==> r[i] in s
    ensures !Contains(s, pat) ==> r == s
    decreases |s|
  {
    if |s| < |pat| then s
    else if StartsWith(s, pat) then RemoveAll(s[|pat|..], pat)
    else [s[0]] + RemoveAll(s[1..], pat)
  }

  /** An occurrence at the front is removed, and nothing else changes when
      the rest holds no occurrence. */
  lemma RemoveAllLeading(pat: string, s: string)
    requires pat != [] && !Contains(s, pat)
    ensures RemoveAll(pat + s, pat) == s
  {
    assert (pat + s)[..|pat|] == pat;
    assert (pat + s)[|pat|..] == s;
  }

  /** A character that cannot begin the pattern is kept in front. */
  lemma RemoveAllCons(c: char, s: string, pat: string)
    requires pat != [] && c != pat[0]
    ensures RemoveAll([c] + s, pat) == [c] + RemoveAll(s, pat)
  {
    assert ([c] + s)[1..] == s;
    if |[c] + s| < |pat| {
      assert !Contains(s, pat) by {
        ContainsIff(s, pat);
      }
    } else {
      assert ([c] + s)[..|pat|][0] == c;
    }
  }

  /** Removing a marker from `mark + " " + s + " "` and stripping gives
      back `s`, when `s` holds no occurrence of the marker and is trimmed. */
  lemma RemoveLeadingLabel(mark: string, s: string)
    requires mark != [] && mark[0] != ' ' && mark[|mark| - 1] != ' '
    requires !Contains(s, mark) && Trimmed(s)
    ensures Strip(RemoveAll(mark + " " + s + " ", mark)) == s
  {
    var padded := [' '] + s + [' '];
    assert mark + " " + s + " " == mark + padded;
    assert RemoveAll(mark + padded, mark) == padded by {
      PaddedContains(s, mark);
      RemoveAllLeading(mark, padded);
    }
    assert Strip(padded) == s by {
      StripPadded([' '], s, [' ']);
    }
  }

  /** `" " + mark + " " + s` contains the marker, and removing the marker
      and stripping gives back `s`, when `s` holds no occurrence of the
      mark and is trimmed. */
  lemma RemoveInnerLabel(mark: string, s: string)
    requires mark != [] && mark[0] != ' '
    requires !Contains(s, mark) && Trimmed(s)
    ensures Contains(" " + mark + " " + s, mark)
    ensures Strip(RemoveAll(" " + mark + " " + s, mark)) == s
  {
    var t := " " + mark + " " + s;
    var rest := [' '] + s;
    assert t == [' '] + (mark + rest);
    NoMarkAfterSpace(mark, s);
    RemoveAllLeading(mark, rest);
    RemoveAllCons(' ', mark + rest, mark);
    assert RemoveAll(t, mark) == [' '] + rest;
    StripSpaceCons(rest);
    StripSpaceCons(s);
    StripTrimmed(s);
    ContainsLeading(mark, rest);
    ContainsCons(' ', mark + rest, mark);
  }

  /** A pattern that does not begin with a space gains no occurrence from
      a space put in front. */
  lemma NoMarkAfterSpace(mark: string, s: string)
    requires mark != [] && mark[0] != ' ' && !Contains(s, mark)
    ensures !Contains([' '] + s, mark)
  {
    var rest := [' '] + s;
    assert rest[1..] == s;
    if |mark| <= |rest| {
      assert rest[..|mark|][0] == ' ';
    }
  }

  /** The index of the first occurrence of `c` in `s`. */
  function IndexOf(s: string, c: char): (i: nat)
    requires c in s
    ensures i < |s| && s[i] == c && c !in s[..i]
  {
    if s[0] == c then 0 else IndexOf(s[1..], c) + 1
  }

  /** Python's `s.split(sep)` for a one-character separator: the pieces
      between separators, always at least one. */
  function Split(s: string, sep: char): (parts: seq<string>)
    ensures |parts| >= 1
    ensures forall i :: 0 <= i < |parts| ==> sep !in parts[i]
    ensures Join(parts, sep) == s
    decreases |s|
  {
    if sep !in s then [s]
    else
      var i := IndexOf(s, sep);
      var rest := Split(s[i + 1..], sep);
      assert s == s[..i] + [sep] + s[i + 1..];
      [s[..i]] + rest
  }

  /** Python's `sep.join(parts)`. */
  function Join(parts: seq<string>, sep: char): string
    requires |parts| >= 1
  {
    if |parts| == 1 then parts[0] else parts[0] + [sep] + Join(parts[1..], sep)
  }

  /** Splitting undoes joining when no piece holds the separator. */
  lemma {:induction false} SplitJoin(parts: seq<string>, sep: char)
    requires |parts| >= 1
    requires forall i :: 0 <= i < |parts| ==> sep !in parts[i]
    ensures Split(Join(parts, sep), sep) == parts
  {
    if |parts| > 1 {
      var tail := Join(parts[1..], sep);
      var s := parts[0] + [sep] + tail;
      IndexOfAfter(parts[0], sep, tail);
      assert s[..|parts[0]|] == parts[0];
      assert s[|parts[0]| + 1..] == tail;
      assert sep in s by {
        assert s[|parts[0]|] == sep;
      }
      assert Split(s, sep) == [parts[0]] + Split(tail, sep);
      SplitJoin(parts[1..], sep);
      assert parts == [parts[0]] + parts[1..];
    }
  }

  /** The first separator of `p + [sep] + t`, when `p` holds none, is the
      one right after `p`. */
  lemma {:induction false} IndexOfAfter(p: string, sep: char, t: string)
    requires sep !in p
    ensures IndexOf(p + [sep] + t, sep) == |p|
  {
    var s := p + [sep] + t;
    if p != [] {
      assert s[0] == p[0];
      assert s[1..] == p[1..] + [sep] + t;
      IndexOfAfter(p[1..], sep, t);
    }
  }

  /** Python's slice `s[:n]`. */
  function Take(s: string, n: nat): (r: string)
    ensures |r| == if |s| <= n then |s| else n
    ensures r == s[..|r|]
  {
    if |s| <= n then s else s[..n]
  }

  predicate IsAsciiUpper(c: char) { 'A' <= c <= 'Z' }
  predicate IsAsciiLower(c: char) { 'a' <= c <= 'z' }
  predicate IsDigit(c: char) { '0' <= c <= '9' }

  function UpperChar(c: char): char {
    if IsAsciiLower(c) then (c as int - 32) as char else c
  }

  function LowerChar(c: char): char {
    if IsAsciiUpper(c) then (c as int + 32) as char else c
  }

  /** `s.upper()` restricted to ASCII letters. */
  function Upper(s: string): (r: string)
    ensures |r| == |s|
    ensures forall i :: 0 <= i < |s| ==> r[i] == UpperChar(s[i])
  {
    seq(|s|, i requires 0 <= i < |s| => UpperChar(s[i]))
  }

  /** `s.lower()` restricted to ASCII letters. */
  function Lower(s: string): (r: string)
    ensures |r| == |s|
    ensures forall i :: 0 <= i < |s| ==> r[i] == LowerChar(s[i])
  {
    seq(|s|, i requires 0 <= i < |s| => LowerChar(s[i]))
  }

  // ---------------------------------------------------------------------
  // Words: `s.split()` with no separator, and `" ".join(words)`
  // ---------------------------------------------------------------------

  /** A non-empty run of non-whitespace characters. */
  predicate IsWord(w: string) {
    w != [] && forall i :: 0 <= i < |w| ==> !IsSpace(w[i])
  }

  /** The length of the run of non-whitespace characters that `t` starts
      with. */
  function WordLen(t: string): (n: nat)
    ensures n <= |t|
    ensures forall i :: 0 <= i < n ==> !IsSpace(t[i])
    ensures n < |t| ==> IsSpace(t[n])
    decreases |t|
  {
    if t == [] || IsSpace(t[0]) then 0 else 1 + WordLen(t[1..])
  }

  /** `s.split()`: the maximal runs of non-whitespace characters of `s`,
      in order. */
  function Words(s: string): seq<string>
    decreases |s|
  {
    var t := TrimStart(s);
    if t == [] then []
    else
      var n := WordLen(t);
      assert n >= 1;
      [t[..n]] + Words(t[n..])
  }

  /** Every piece `split()` yields is a word. */
  lemma {:induction false} WordsAreWords(s: string)
    ensures forall i :: 0 <= i < |Words(s)| ==> IsWord(Words(s)[i])
    decreases |s|
  {
    var t := TrimStart(s);
    if t != [] {
      var n := WordLen(t);
      LeadingWord(t);
      WordsAreWords(t[n..]);
      AllWordsCons(t[..n], Words(t[n..]));
    }
  }

  /** A word in front of words gives words. */
  lemma AllWordsCons(w: string, ws: seq<string>)
    requires IsWord(w) && forall i :: 0 <= i < |ws| ==> IsWord(ws[i])
    ensures forall i :: 0 <= i < |[w] + ws| ==> IsWord(([w] + ws)[i])
  {
    assert forall i :: 1 <= i < |[w] + ws| ==> ([w] + ws)[i] == ws[i - 1];
  }

  /** A string that does not start with whitespace starts with a word. */
  lemma LeadingWord(t: string)
    requires t != [] && !IsSpace(t[0])
    ensures WordLen(t) >= 1 && IsWord(t[..WordLen(t)])
  {
    var n := WordLen(t);
    assert forall i :: 0 <= i < n ==> t[..n][i] == t[i];
  }

  /** `" ".join(ws)`, which is empty for no words. */
  function Joined(ws: seq<string>): string {
    if ws == [] then [] else Join(ws, ' ')
  }

  /** Words joined by single spaces neither start nor end with whitespace,
      and are empty only when there are no words. */
  lemma {:induction false} JoinedTrimmed(ws: seq<string>)
    requires forall i :: 0 <= i < |ws| ==> IsWord(ws[i])
    ensures Trimmed(Joined(ws))
    ensures Joined(ws) == [] <==> ws == []
    decreases |ws|
  {
    if |ws| > 1 {
      var tail := ws[1..];
      assert IsWord(tail[0]);
      JoinedTrimmed(tail);
      var j := Joined(ws);
      assert j == ws[0] + [' '] + Joined(tail);
      assert j[0] == ws[0][0];
      assert j[|j| - 1] == Joined(tail)[|Joined(tail)| - 1];
    } else if |ws| == 1 {
      assert IsWord(ws[0]);
    }
  }
}

/** The Python 2 string operations that the story reader relies on:
    `s.find(c)`, slicing with a possibly negative bound, `s.split(sep)`,
    `s.split()` and `s.replace(c, '')`. Each is stated with the property
    that pins it down and, where there is one, its inverse. */
module PyStrings {

  // ---------------------------------------------------------------------
  // Slicing
  // ---------------------------------------------------------------------

  /** Python's normalisation of a slice bound: a negative bound counts from
      the end, and the result is clamped to 0 .. len. */
  function SliceBound(len: nat, i: int): (r: nat)
    ensures r <= len
    ensures 0 <= i <= len ==> r == i
    ensures -(len as int) <= i < 0 ==> r == (len as int) + i
  {
    if i < 0 then (if len + i < 0 then 0 else len + i)
    else if i > len then len
    else i
  }

  /** `s[:i]` */
  function Prefix<T>(s: seq<T>, i: int): (r: seq<T>)
  {
    s[..SliceBound(|s|, i)]
  }

  /** `s[i:]` */
  function Suffix<T>(s: seq<T>, i: int): (r: seq<T>)
  {
    s[SliceBound(|s|, i)..]
  }

  /** A prefix and the suffix taken at the same bound put the string back
      together, whatever the bound (this is what lets the reader split a
      record into a meta part and a story part without losing text). */
  lemma PrefixSuffix<T>(s: seq<T>, i: int)
    ensures Prefix(s, i) + Suffix(s, i) == s
  {
  }

  // ---------------------------------------------------------------------
  // Searching
  // ---------------------------------------------------------------------

  /** `s.find(c)`: the index of the first `c` in `s`, or -1 when there is none. */
  function Find(s: string, c: char): (r: int)
    ensures -1 <= r < |s|
    ensures r == -1 <==> c !in s
    ensures r >= 0 ==> s[r] == c && c !in s[..r]
  {
    if s == [] then -1
    else if s[0] == c then 0
    else
      var r := Find(s[1..], c);
      assert s == [s[0]] + s[1..];
      if r < 0 then -1 else r + 1
  }

  /** `pat` occurs in `s` starting at index `j`. */
  predicate OccursAt(s: string, pat: string, j: int)
  {
    0 <= j && j + |pat| <= |s| && s[j..j + |pat|] == pat
  }

  /** `s.find(pat)` for a non-empty pattern: the least index at which `pat`
      occurs, or -1 when it occurs nowhere. */
  function IndexOf(s: string, pat: string): (r: int)
    requires pat != []
    ensures r == -1 || OccursAt(s, pat, r)
    ensures forall j :: OccursAt(s, pat, j) ==> 0 <= r <= j
    decreases |s|
  {
    if |s| < |pat| then -1
    else if s[..|pat|] == pat then 0
    else
      var r := IndexOf(s[1..], pat);
      IndexOfStep(s, pat, r);
      if r < 0 then -1 else r + 1
  }

  /** The step of `IndexOf` past a position where `pat` does not start: the
      first occurrence in `s[1..]`, shifted by one, is the first one in `s`. */
  lemma IndexOfStep(s: string, pat: string, r: int)
    requires pat != [] && |pat| <= |s| && s[..|pat|] != pat
    requires r == -1 || OccursAt(s[1..], pat, r)
    requires forall j :: OccursAt(s[1..], pat, j) ==> 0 <= r <= j
    ensures var r' := if r < 0 then -1 else r + 1;
      (r' == -1 || OccursAt(s, pat, r')) && forall j :: OccursAt(s, pat, j) ==> 0 <= r' <= j
  {
    assert !OccursAt(s, pat, 0);
    OccursShift(s, pat);
  }

  /** An occurrence at `j >= 1` in `s` is an occurrence at `j - 1` in `s[1..]`. */
  lemma OccursShift(s: string, pat: string)
    requires s != []
    ensures forall j :: 1 <= j ==> (OccursAt(s, pat, j) <==> OccursAt(s[1..], pat, j - 1))
  {
    forall j | 1 <= j
      ensures OccursAt(s, pat, j) <==> OccursAt(s[1..], pat, j - 1)
    {
      if j + |pat| <= |s| {
        assert s[1..][j - 1..j - 1 + |pat|] == s[j..j + |pat|];
      }
    }
  }

  /** Occurrences that lie inside `s` are the same in `s` and in `s + t`. */
  lemma OccursInPrefix(s: string, t: string, pat: string, j: int)
    requires j + |pat| <= |s|
    ensures OccursAt(s + t, pat, j) <==> OccursAt(s, pat, j)
  {
    if 0 <= j {
      assert (s + t)[j..j + |pat|] == s[j..j + |pat|];
    }
  }

  /** The first occurrence found in `s` is still the first one once text is
      appended behind it. */
  lemma IndexOfExtend(s: string, t: string, pat: string)
    requires pat != []
    requires IndexOf(s, pat) >= 0
    ensures IndexOf(s + t, pat) == IndexOf(s, pat)
  {
    var r := IndexOf(s, pat);
    OccursInPrefix(s, t, pat, r);
    var r' := IndexOf(s + t, pat);
    if r' < r {
      OccursInPrefix(s, t, pat, r');
    }
  }

  // ---------------------------------------------------------------------
  // s.split(sep) and sep.join(parts)
  // ---------------------------------------------------------------------

  /** `sep.join(parts)` */
  function Join(parts: seq<string>, sep: string): string
  {
    if |parts| == 0 then ""
    else if |parts| == 1 then parts[0]
    else parts[0] + sep + Join(parts[1..], sep)
  }

  /** `s.split(sep)` with an explicit, non-empty separator: cut at each
      occurrence of `sep`, scanning left to right without overlap. There is
      always at least one part, and no part contains the separator. */
  function Split(s: string, sep: string): (parts: seq<string>)
    requires sep != []
    ensures parts != []
    ensures forall k :: 0 <= k < |parts| ==> IndexOf(parts[k], sep) == -1
    decreases |s|
  {
    var i := IndexOf(s, sep);
    if i < 0 then [s]
    else
      var rest := Split(s[i + |sep|..], sep);
      NoOccurrenceBefore(s, sep, i);
      [s[..i]] + rest
  }

  /** The text in front of the first occurrence holds no occurrence. */
  lemma NoOccurrenceBefore(s: string, sep: string, i: int)
    requires sep != []
    requires i == IndexOf(s, sep) && i >= 0
    ensures IndexOf(s[..i], sep) == -1
  {
    var r := IndexOf(s[..i], sep);
    if r >= 0 {
      assert s == s[..i] + s[i..];
      OccursInPrefix(s[..i], s[i..], sep, r);
    }
  }

  /** Joining the parts with the separator gives the original text back. */
  lemma {:induction false} SplitJoin(s: string, sep: string)
    requires sep != []
    ensures Join(Split(s, sep), sep) == s
    decreases |s|
  {
    var i := IndexOf(s, sep);
    if i >= 0 {
      var tail := s[i + |sep|..];
      SplitJoin(tail, sep);
      var rest := Split(tail, sep);
      assert Split(s, sep) == [s[..i]] + rest;
      assert s[i..i + |sep|] == sep;
      assert s == s[..i] + sep + tail;
    }
  }

  /** Conversely, splitting a joined list of parts gives the parts back,
      provided no part holds the separator and none ends in a way that would
      let an occurrence straddle the boundary with the next separator. */
  lemma {:induction false} JoinSplit(parts: seq<string>, sep: string)
    requires sep != [] && parts != []
    requires forall k :: 0 <= k < |parts| - 1 ==> IndexOf(parts[k] + sep, sep) == |parts[k]|
    requires IndexOf(parts[|parts| - 1], sep) == -1
    ensures Split(Join(parts, sep), sep) == parts
  {
    if |parts| > 1 {
      JoinSplitTail(parts, sep);
      JoinSplit(parts[1..], sep);
      JoinCons(parts, sep);
      JoinSplitStep(parts[0], sep, Join(parts[1..], sep));
      assert parts == [parts[0]] + parts[1..];
    }
  }

  lemma JoinSplitTail(parts: seq<string>, sep: string)
    requires sep != [] && |parts| > 1
    requires forall k :: 0 <= k < |parts| - 1 ==> IndexOf(parts[k] + sep, sep) == |parts[k]|
    requires IndexOf(parts[|parts| - 1], sep) == -1
    ensures forall k :: 0 <= k < |parts[1..]| - 1 ==> IndexOf(parts[1..][k] + sep, sep) == |parts[1..][k]|
    ensures IndexOf(parts[1..][|parts[1..]| - 1], sep) == -1
  {
    assert forall k :: 0 <= k < |parts[1..]| ==> parts[1..][k] == parts[k + 1];
  }

  lemma JoinCons(parts: seq<string>, sep: string)
    requires |parts| > 1
    ensures Join(parts, sep) == (parts[0] + sep) + Join(parts[1..], sep)
  {
  }

  /** One step of `JoinSplit`: a part followed by the separator is cut off
      as the first piece. */
  lemma JoinSplitStep(p: string, sep: string, tail: string)
    requires sep != []
    requires IndexOf(p + sep, sep) == |p|
    ensures Split((p + sep) + tail, sep) == [p] + Split(tail, sep)
  {
    var s := (p + sep) + tail;
    IndexOfExtend(p + sep, tail, sep);
    assert s[|p| + |sep|..] == tail;
    assert s[..|p|] == p;
  }

  // ---------------------------------------------------------------------
  // s.split() with no argument
  // ---------------------------------------------------------------------

  /** The characters Python 2's `str.split()` treats as whitespace: space,
      tab, line feed, vertical tab, form feed and carriage return (the last
      five are the contiguous range 9 .. 13). */
  predicate IsSpace(c: char)
  {
    c == ' ' || '\t' <= c <= '\r'
  }

  /** A token of `s.split()`: non-empty and free of whitespace. */
  predicate IsWord(w: string)
  {
    w != [] && forall i :: 0 <= i < |w| ==> !IsSpace(w[i])
  }

  /** Length of the leading run of non-whitespace characters. */
  function WordEnd(s: string): (n: nat)
    ensures n <= |s|
    ensures forall i :: 0 <= i < n ==> !IsSpace(s[i])
    ensures n < |s| ==> IsSpace(s[n])
  {
    if s == [] || IsSpace(s[0]) then 0 else 1 + WordEnd(s[1..])
  }

  /** `s.split()`: the maximal runs of non-whitespace, leading and trailing
      whitespace dropped, runs of whitespace counting as one separator. */
  function Tokens(s: string): (ts: seq<string>)
    ensures forall k :: 0 <= k < |ts| ==> IsWord(ts[k])
    decreases |s|
  {
    if s == [] then []
    else if IsSpace(s[0]) then Tokens(s[1..])
    else
      var n := WordEnd(s);
      [s[..n]] + Tokens(s[n..])
  }

  /** A word followed by a whitespace character is split off as one token. */
  lemma TokensWord(w: string, c: char, rest: string)
    requires IsWord(w) && IsSpace(c)
    ensures Tokens(w + [c] + rest) == [w] + Tokens(rest)
  {
    var s := w + [c] + rest;
    WordEndOf(w, [c] + rest);
    assert s[..|w|] == w;
    assert s[|w|..] == [c] + rest;
    assert ([c] + rest)[1..] == rest;
  }

  lemma {:induction false} WordEndOf(w: string, rest: string)
    requires IsWord(w)
    requires rest != [] && IsSpace(rest[0])
    ensures WordEnd(w + rest) == |w|
    decreases |w|
  {
    if |w| > 1 {
      assert (w + rest)[1..] == w[1..] + rest;
      WordEndOf(w[1..], rest);
    }
  }

  /** `s.split()` inverts `' '.join(words)` for words without whitespace. */
  lemma {:induction false} TokensJoin(words: seq<string>)
    requires forall k :: 0 <= k < |words| ==> IsWord(words[k])
    ensures Tokens(Join(words, " ")) == words
  {
    if |words| == 1 {
      var w := words[0];
      assert w == w + [];
      TokensOfWord(w);
    } else if |words| > 1 {
      TokensJoin(words[1..]);
      TokensWord(words[0], ' ', Join(words[1..], " "));
      assert Join(words, " ") == words[0] + [' '] + Join(words[1..], " ");
    }
  }

  /** A single word is its own only token. */
  lemma TokensOfWord(w: string)
    requires IsWord(w)
    ensures Tokens(w) == [w]
  {
    WordEndAll(w);
    assert w[..|w|] == w;
    assert w[|w|..] == [];
  }

  lemma {:induction false} WordEndAll(w: string)
    requires forall i :: 0 <= i < |w| ==> !IsSpace(w[i])
    ensures WordEnd(w) == |w|
  {
    if w != [] {
      WordEndAll(w[1..]);
    }
  }

  // ---------------------------------------------------------------------
  // s.replace(c, '')
  // ---------------------------------------------------------------------

  /** `s.replace(c, '')`: every `c` deleted, the other characters kept in order. */
  function Remove(s: string, c: char): (r: string)
    ensures c !in r
    ensures |r| <= |s|
  {
    if s == [] then []
    else (if s[0] == c then [] else [s[0]]) + Remove(s[1..], c)
  }

  /** Deleting a character distributes over concatenation. */
  lemma {:induction false} RemoveAppend(a: string, b: string, c: char)
    ensures Remove(a + b, c) == Remove(a, c) + Remove(b, c)
  {
    if a == [] {
      assert a + b == b;
    } else {
      assert (a + b)[0] == a[0];
      assert (a + b)[1..] == a[1..] + b;
      RemoveAppend(a[1..], b, c);
    }
  }

  /** A leading `c` is dropped. */
  lemma RemoveHead(s: string, c: char)
    ensures Remove([c] + s, c) == Remove(s, c)
  {
    assert ([c] + s)[1..] == s;
  }

  /** Text without `c` is left unchanged. */
  lemma {:induction false} RemoveAbsent(s: string, c: char)
    requires c !in s
    ensures Remove(s, c) == s
  {
    if s != [] {
      RemoveAbsent(s[1..], c);
    }
  }
}

/**
 * The handful of Python string operations the bot's handlers rely on, with
 * Python's semantics: `str.isspace`, `s.split()` with no argument,
 * `s.strip()` with no argument, `s.split(sep)` with a one-character
 * separator, `s.startswith(p)` and the substring test `sub in s`.
 */
module PyText {

  /** Python's `str.isspace()` for one character: the characters that `split()`
      and `strip()` without arguments treat as whitespace. */
  predicate IsSpace(c: char) {
    var n := c as int;
    (0x09 <= n <= 0x0D) || (0x1C <= n <= 0x20) || n == 0x85 || n == 0xA0 || n == 0x1680
    || (0x2000 <= n <= 0x200A) || n == 0x2028 || n == 0x2029 || n == 0x202F || n == 0x205F
    || n == 0x3000
  }

  predicate NoSpace(s: string) {
    forall i :: 0 <= i < |s| ==> !IsSpace(s[i])
  }

  predicate AllSpace(s: string) {
    forall i :: 0 <= i < |s| ==> IsSpace(s[i])
  }

  /** Neither begins nor ends with whitespace: what `strip()` leaves behind. */
  predicate Stripped(s: string) {
    s == [] || (!IsSpace(s[0]) && !IsSpace(s[|s| - 1]))
  }

  /** `s.startswith(prefix)` */
  predicate StartsWith(s: string, prefix: string) {
    |prefix| <= |s| && s[..|prefix|] == prefix
  }

  /** sub occurs in s starting at index i. */
  predicate OccursAt(s: string, sub: string, i: int) {
    0 <= i <= |s| - |sub| && s[i..i + |sub|] == sub
  }

  /** `sub in s` for strings */
  predicate Contains(s: string, sub: string) {
    exists i | 0 <= i <= |s| - |sub| :: OccursAt(s, sub, i)
  }

  /** Number of occurrences of the character c in s. */
  function Count(s: string, c: char): nat {
    if s == [] then 0 else (if s[0] == c then 1 else 0) + Count(s[1..], c)
  }

  lemma {:induction false} CountZero(s: string, c: char)
    ensures Count(s, c) == 0 <==> c !in s
  {
    if s != [] {
      CountZero(s[1..], c);
      assert c in s <==> s[0] == c || c in s[1..];
    }
  }

  lemma {:induction false} CountAppend(s: string, t: string, c: char)
    ensures Count(s + t, c) == Count(s, c) + Count(t, c)
  {
    if s != [] {
      assert (s + t)[0] == s[0];
      assert (s + t)[1..] == s[1..] + t;
      CountAppend(s[1..], t, c);
    } else {
      assert s + t == t;
    }
  }

  /** A substring that holds c at least once forces c into the whole string. */
  lemma ContainsCharOf(s: string, sub: string, c: char)
    requires Contains(s, sub) && c in sub
    ensures Count(s, c) > 0
  {
    var i :| 0 <= i <= |s| - |sub| && OccursAt(s, sub, i);
    var k :| 0 <= k < |sub| && sub[k] == c;
    assert s[i + k] == c;
    CountZero(s, c);
  }

  // ---------------------------------------------------------------------
  // s.split() with no argument

  /** Length of the run of non-whitespace characters at the start of s. */
  function TokenLength(s: string): (n: nat)
    ensures n <= |s|
    ensures NoSpace(s[..n])
    ensures n < |s| ==> IsSpace(s[n])
  {
    if s == [] || IsSpace(s[0]) then 0 else 1 + TokenLength(s[1..])
  }

  /** `s.split()`: the maximal runs of non-whitespace characters of s, in
      order; leading, trailing and repeated whitespace yields no empty word. */
  function Words(s: string): (ws: seq<string>)
    decreases |s|
    ensures forall k :: 0 <= k < |ws| ==> ws[k] != [] && NoSpace(ws[k])
  {
    if s == [] then []
    else if IsSpace(s[0]) then Words(s[1..])
    else
      var n := TokenLength(s);
      [s[..n]] + Words(s[n..])
  }

  /** The words joined by single spaces (`" ".join(ws)`). */
  function JoinSpaced(ws: seq<string>): string {
    if ws == [] then ""
    else if |ws| == 1 then ws[0]
    else ws[0] + " " + JoinSpaced(ws[1..])
  }

  lemma {:induction false} TokenLengthOfWord(w: string, rest: string)
    requires NoSpace(w)
    requires rest == [] || IsSpace(rest[0])
    ensures TokenLength(w + rest) == |w|
  {
    if w != [] {
      assert (w + rest)[1..] == w[1..] + rest;
      TokenLengthOfWord(w[1..], rest);
    }
  }

  lemma {:induction false} WordsOfFirst(w: string, rest: string)
    requires w != [] && NoSpace(w)
    requires rest == [] || IsSpace(rest[0])
    ensures Words(w + rest) == [w] + Words(rest)
  {
    TokenLengthOfWord(w, rest);
    assert (w + rest)[..|w|] == w;
    assert (w + rest)[|w|..] == rest;
  }

  /** Whitespace alone splits into no words. */
  lemma {:induction false} WordsOfSpace(pad: string)
    requires AllSpace(pad)
    ensures Words(pad) == []
  {
    if pad != [] {
      WordsOfSpace(pad[1..]);
    }
  }

  /** After any run of whitespace, the next word is the maximal run of
      non-whitespace characters that follows it. With WordsOfSpace this fixes
      the words of every string. */
  lemma {:induction false} WordsOfPadded(pad: string, w: string, rest: string)
    requires AllSpace(pad) && w != [] && NoSpace(w)
    requires rest == [] || IsSpace(rest[0])
    ensures Words(pad + w + rest) == [w] + Words(rest)
  {
    if pad == [] {
      assert pad + w + rest == w + rest;
      WordsOfFirst(w, rest);
    } else {
      assert (pad + w + rest)[1..] == pad[1..] + w + rest;
      WordsOfPadded(pad[1..], w, rest);
    }
  }

  /** Splitting words joined by single spaces gives back the words. */
  lemma {:induction false} WordsOfJoinSpaced(ws: seq<string>)
    requires forall k :: 0 <= k < |ws| ==> ws[k] != [] && NoSpace(ws[k])
    ensures Words(JoinSpaced(ws)) == ws
  {
    if |ws| == 1 {
      WordsOfFirst(ws[0], "");
      assert ws[0] + "" == ws[0];
    } else if |ws| > 1 {
      var rest := JoinSpaced(ws[1..]);
      assert ws[0] + " " + rest == ws[0] + (" " + rest);
      WordsOfFirst(ws[0], " " + rest);
      assert (" " + rest)[1..] == rest;
      WordsOfJoinSpaced(ws[1..]);
    }
  }

  // ---------------------------------------------------------------------
  // s.strip() with no argument

  /** How many whitespace characters `lstrip()` removes from the front of s. */
  function LeadingSpace(s: string): (n: nat)
    ensures n <= |s| && AllSpace(s[..n])
    ensures n < |s| ==> !IsSpace(s[n])
  {
    if s != [] && IsSpace(s[0]) then 1 + LeadingSpace(s[1..]) else 0
  }

  /** How many whitespace characters `rstrip()` removes from the back of s. */
  function TrailingSpace(s: string): (n: nat)
    ensures n <= |s| && AllSpace(s[|s| - n..])
    ensures n < |s| ==> !IsSpace(s[|s| - 1 - n])
  {
    if s != [] && IsSpace(s[|s| - 1]) then 1 + TrailingSpace(s[..|s| - 1]) else 0
  }

  /** s is r at index i with nothing but whitespace before and after it. */
  predicate SpacedAt(s: string, r: string, i: int) {
    OccursAt(s, r, i) && AllSpace(s[..i]) && AllSpace(s[i + |r|..])
  }

  /** `s.strip()`: s without its leading and trailing whitespace. */
  function Strip(s: string): (r: string)
    ensures Stripped(r)
    ensures exists i :: SpacedAt(s, r, i)
  {
    var i := LeadingSpace(s);
    var n := TrailingSpace(s[i..]);
    StripSlice(s, i, n);
    s[i..|s| - n]
  }

  lemma StripSlice(s: string, i: nat, n: nat)
    requires i <= |s| && AllSpace(s[..i]) && (i < |s| ==> !IsSpace(s[i]))
    requires n <= |s| - i && AllSpace(s[i..][|s| - i - n..])
    requires n < |s| - i ==> !IsSpace(s[i..][|s| - i - 1 - n])
    ensures Stripped(s[i..|s| - n]) && SpacedAt(s, s[i..|s| - n], i)
  {
    var j := |s| - n;
    assert s[i..][j - i..] == s[j..];
    assert i < j ==> s[i..j][0] == s[i] && s[i..j][j - i - 1] == s[i..][j - i - 1];
  }

  lemma {:induction false} LeadingSpacePadded(pad: string, s: string)
    requires AllSpace(pad)
    requires s == [] || !IsSpace(s[0])
    ensures LeadingSpace(pad + s) == |pad|
  {
    if pad != [] {
      assert (pad + s)[1..] == pad[1..] + s;
      LeadingSpacePadded(pad[1..], s);
    }
  }

  lemma {:induction false} TrailingSpacePadded(s: string, pad: string)
    requires AllSpace(pad)
    requires s == [] || !IsSpace(s[|s| - 1])
    ensures TrailingSpace(s + pad) == |pad|
  {
    if pad != [] {
      assert (s + pad)[..|s + pad| - 1] == s + pad[..|pad| - 1];
      TrailingSpacePadded(s, pad[..|pad| - 1]);
    }
  }

  /** Whatever whitespace surrounds a stripped string, `strip()` removes exactly it. */
  lemma StripPadded(before: string, s: string, after: string)
    requires AllSpace(before) && AllSpace(after) && Stripped(s)
    ensures Strip(before + s + after) == s
  {
    var text := before + s + after;
    if s == [] {
      assert text == before + after + "";
      LeadingSpacePadded(before + after, "");
      assert text[|text|..] == [];
    } else {
      assert text == before + (s + after);
      LeadingSpacePadded(before, s + after);
      assert text[|before|..] == s + after;
      TrailingSpacePadded(s, after);
      assert text[|before|..|before| + |s|] == s;
    }
  }

  // ---------------------------------------------------------------------
  // s.split(sep) with a one-character separator

  /** `s.split(sep)`: the pieces between occurrences of sep, empty pieces kept,
      so there is always one piece more than there are separators. */
  function SplitOn(s: string, sep: char): (parts: seq<string>)
    ensures |parts| == Count(s, sep) + 1
    ensures forall k :: 0 <= k < |parts| ==> sep !in parts[k]
  {
    if s == [] then [""]
    else
      var rest := SplitOn(s[1..], sep);
      if s[0] == sep then [""] + rest
      else [[s[0]] + rest[0]] + rest[1..]
  }

  /** `sep.join(parts)` */
  function JoinOn(parts: seq<string>, sep: char): string {
    if parts == [] then ""
    else if |parts| == 1 then parts[0]
    else parts[0] + [sep] + JoinOn(parts[1..], sep)
  }

  /** Joining the pieces of a split with the same separator restores the string. */
  lemma {:induction false} JoinOnSplitOn(s: string, sep: char)
    ensures JoinOn(SplitOn(s, sep), sep) == s
  {
    if s != [] {
      var rest := SplitOn(s[1..], sep);
      JoinOnSplitOn(s[1..], sep);
      if s[0] == sep {
        assert SplitOn(s, sep)[1..] == rest;
      } else {
        var parts := SplitOn(s, sep);
        assert parts[1..] == rest[1..];
        if |rest| == 1 {
          assert s == [s[0]] + rest[0];
        } else {
          assert rest[1..][1..] == rest[2..];
          assert JoinOn(rest, sep) == rest[0] + [sep] + JoinOn(rest[1..], sep);
          assert s == [s[0]] + rest[0] + [sep] + JoinOn(rest[1..], sep);
        }
      }
    }
  }

  lemma {:induction false} SplitOnPrefix(w: string, rest: string, sep: char)
    requires sep !in w
    ensures SplitOn(w + rest, sep) == [w + SplitOn(rest, sep)[0]] + SplitOn(rest, sep)[1..]
  {
    if w != [] {
      assert (w + rest)[0] == w[0] && w[0] != sep;
      assert (w + rest)[1..] == w[1..] + rest;
      assert sep !in w[1..];
      SplitOnPrefix(w[1..], rest, sep);
      var after := SplitOn(rest, sep);
      var inner := SplitOn(w[1..] + rest, sep);
      assert inner[0] == w[1..] + after[0] && inner[1..] == after[1..];
      assert [w[0]] + (w[1..] + after[0]) == w + after[0];
    } else {
      var after := SplitOn(rest, sep);
      assert w + rest == rest && w + after[0] == after[0];
      assert after == [after[0]] + after[1..];
    }
  }

  /** Splitting pieces that hold no separator, once joined, gives the pieces back. */
  lemma {:induction false} SplitOnJoinOn(parts: seq<string>, sep: char)
    requires parts != []
    requires forall k :: 0 <= k < |parts| ==> sep !in parts[k]
    ensures SplitOn(JoinOn(parts, sep), sep) == parts
  {
    if |parts| == 1 {
      SplitOnPrefix(parts[0], "", sep);
      assert parts[0] + "" == parts[0];
    } else {
      var rest := JoinOn(parts[1..], sep);
      assert parts[0] + [sep] + rest == parts[0] + ([sep] + rest);
      SplitOnPrefix(parts[0], [sep] + rest, sep);
      assert ([sep] + rest)[1..] == rest;
      SplitOnJoinOn(parts[1..], sep);
      assert parts[0] + "" == parts[0];
    }
  }
}

/** Character classes and the Python str operations the normaliser relies on:
    str.split() with no separator, " ".join, str.strip(), str.translate that
    deletes string.punctuation, and the `in` test on strings. */
module Text {

  /** Python's str.isspace(): the characters str.split() and str.strip() treat as whitespace. */
  predicate IsSpace(c: char) {
    var k := c as int;
    k == 0x20 || 0x09 <= k <= 0x0D || 0x1C <= k <= 0x1F || k == 0x85 || k == 0xA0 ||
    k == 0x1680 || 0x2000 <= k <= 0x200A || k == 0x2028 || k == 0x2029 ||
    k == 0x202F || k == 0x205F || k == 0x3000
  }

  /** Membership in Python's string.punctuation, the 32 ASCII punctuation characters. */
  predicate IsAsciiPunct(c: char) {
    var k := c as int;
    0x21 <= k <= 0x2F || 0x3A <= k <= 0x40 || 0x5B <= k <= 0x60 || 0x7B <= k <= 0x7E
  }

  /** A token of str.split(): non-empty and free of whitespace. */
  predicate IsWord(w: string) {
    |w| > 0 && forall i :: 0 <= i < |w| ==> !IsSpace(w[i])
  }

  predicate AllWords(words: seq<string>) {
    forall k :: 0 <= k < |words| ==> IsWord(words[k])
  }

  /** Deleting punctuation with str.translate: every ASCII punctuation
      character is dropped and every other character is kept, in order. */
  function StripPunctuation(s: string): (r: string)
    ensures |r| <= |s|
    ensures forall i :: 0 <= i < |r| ==> !IsAsciiPunct(r[i])
  {
    if s == [] then []
    else (if IsAsciiPunct(s[0]) then [] else [s[0]]) + StripPunctuation(s[1..])
  }

  /** Every character that is not punctuation survives as often as it occurs in s. */
  lemma {:induction false} StripPunctuationKeeps(s: string)
    ensures forall c :: multiset(StripPunctuation(s))[c] == if IsAsciiPunct(c) then 0 else multiset(s)[c]
  {
    if s != [] {
      StripPunctuationKeeps(s[1..]);
      assert s == [s[0]] + s[1..];
    }
  }

  /** Deletion works character by character, so it distributes over
      concatenation; with StripPunctuationKeeps this fixes the result,
      order included. */
  lemma {:induction false} StripPunctuationAppend(a: string, b: string)
    ensures StripPunctuation(a + b) == StripPunctuation(a) + StripPunctuation(b)
  {
    if a == [] {
      assert a + b == b;
    } else {
      assert (a + b)[1..] == a[1..] + b;
      StripPunctuationAppend(a[1..], b);
    }
  }

  /** The longest whitespace-free prefix of s. */
  function LeadingWord(s: string): (w: string)
    ensures w <= s
    ensures forall i :: 0 <= i < |w| ==> !IsSpace(w[i])
    ensures |w| < |s| ==> IsSpace(s[|w|])
  {
    if s == [] || IsSpace(s[0]) then [] else [s[0]] + LeadingWord(s[1..])
  }

  /** s.split(): the maximal whitespace-free runs of s, in order. */
  function Split(s: string): (words: seq<string>)
    ensures AllWords(words)
    decreases |s|
  {
    if s == [] then []
    else if IsSpace(s[0]) then Split(s[1..])
    else
      var w := LeadingWord(s);
      [w] + Split(s[|w|..])
  }

  /** The tokens joined with a single space between each two. */
  function Join(words: seq<string>): string {
    if |words| == 0 then ""
    else if |words| == 1 then words[0]
    else words[0] + " " + Join(words[1..])
  }

  /** Joining the tokens of s with single spaces, as normalize_text's last
      step does. */
  function Collapse(s: string): string {
    Join(Split(s))
  }

  /** No whitespace at either end, and every whitespace character is a single
      ' ' standing between two non-whitespace characters. */
  predicate WellSpaced(s: string) {
    (|s| > 0 ==> !IsSpace(s[0]) && !IsSpace(s[|s| - 1])) &&
    forall i :: 0 <= i < |s| && IsSpace(s[i]) ==>
      s[i] == ' ' && 0 < i < |s| - 1 && !IsSpace(s[i - 1]) && !IsSpace(s[i + 1])
  }

  /** Joining tokens with single spaces yields a well-spaced string, empty
      exactly when there are no tokens. */
  lemma {:induction false} JoinWellSpaced(words: seq<string>)
    requires AllWords(words)
    ensures WellSpaced(Join(words))
    ensures |Join(words)| == 0 <==> |words| == 0
  {
    if |words| >= 2 {
      var w, rest := words[0], Join(words[1..]);
      JoinWellSpaced(words[1..]);
      var s := Join(words);
      assert s == w + " " + rest;
      forall i | 0 <= i < |s| && IsSpace(s[i])
        ensures s[i] == ' ' && 0 < i < |s| - 1 && !IsSpace(s[i - 1]) && !IsSpace(s[i + 1])
      {
        if i > |w| {
          var j := i - |w| - 1;
          assert s[i] == rest[j];
          assert s[i - 1] == rest[j - 1] && s[i + 1] == rest[j + 1];
        } else {
          assert i == |w|;
        }
      }
    }
  }

  /** The output of Collapse is well spaced. */
  lemma CollapseWellSpaced(s: string)
    ensures WellSpaced(Collapse(s))
  {
    JoinWellSpaced(Split(s));
  }

  lemma {:induction false} LeadingWordOfWord(w: string, s: string)
    requires forall i :: 0 <= i < |w| ==> !IsSpace(w[i])
    requires s == [] || IsSpace(s[0])
    ensures LeadingWord(w + s) == w
  {
    if w == [] {
      assert w + s == s;
    } else {
      assert (w + s)[1..] == w[1..] + s;
      LeadingWordOfWord(w[1..], s);
    }
  }

  /** Splitting a space-joined list of tokens gives the tokens back. */
  lemma {:induction false} SplitJoin(words: seq<string>)
    requires AllWords(words)
    ensures Split(Join(words)) == words
  {
    if |words| == 1 {
      var w := words[0];
      LeadingWordOfWord(w, []);
      assert w + [] == w;
      assert w[|w|..] == [];
    } else if |words| >= 2 {
      var w, rest := words[0], Join(words[1..]);
      var s := w + " " + rest;
      assert s == w + (" " + rest);
      LeadingWordOfWord(w, " " + rest);
      assert s[|w|..] == " " + rest;
      assert (" " + rest)[1..] == rest;
      SplitJoin(words[1..]);
      assert words == [w] + words[1..];
    }
  }

  /** Collapsing whitespace a second time changes nothing. */
  lemma CollapseIdempotent(s: string)
    ensures Collapse(Collapse(s)) == Collapse(s)
  {
    SplitJoin(Split(s));
  }

  /** A single left-to-right pass over s that drops whitespace before the
      first non-whitespace character, turns every later run of whitespace
      into one ' ', and drops a final run. `started` says whether a
      non-whitespace character has been emitted, `gap` whether whitespace
      has been seen since then. */
  function SqueezeFrom(s: string, started: bool, gap: bool): string {
    if s == [] then ""
    else if IsSpace(s[0]) then SqueezeFrom(s[1..], started, started)
    else (if gap then " " else "") + [s[0]] + SqueezeFrom(s[1..], true, false)
  }

  function Squeeze(s: string): string {
    SqueezeFrom(s, false, false)
  }

  lemma {:induction false} SqueezeWord(w: string, s: string, started: bool, gap: bool)
    requires w != [] && forall i :: 0 <= i < |w| ==> !IsSpace(w[i])
    ensures SqueezeFrom(w + s, started, gap) == (if gap then " " else "") + w + SqueezeFrom(s, true, false)
    decreases |w|
  {
    assert (w + s)[0] == w[0] && (w + s)[1..] == w[1..] + s;
    if |w| == 1 {
      assert w[1..] + s == s;
    } else {
      SqueezeWord(w[1..], s, true, false);
      assert w == [w[0]] + w[1..];
    }
  }

  lemma JoinCons(w: string, words: seq<string>)
    ensures Join([w] + words) == if words == [] then w else w + " " + Join(words)
  {
    assert ([w] + words)[1..] == words;
  }

  lemma {:induction false} SqueezeFromCollapse(s: string, st: bool)
    ensures SqueezeFrom(s, st, st) == if Collapse(s) == "" then "" else (if st then " " else "") + Collapse(s)
    decreases |s|
  {
    if s != [] && IsSpace(s[0]) {
      SqueezeFromCollapse(s[1..], st);
    } else if s != [] {
      var w := LeadingWord(s);
      var rest := s[|w|..];
      assert s == w + rest;
      SqueezeWord(w, rest, st, st);
      assert Split(s) == [w] + Split(rest);
      JoinCons(w, Split(rest));
      SqueezeAfterWord(rest);
      JoinWellSpaced(Split(rest));
      CombineWord(if st then " " else "", w, SqueezeFrom(rest, true, false), Split(rest) == [], Join(Split(rest)));
    }
  }

  /** What follows a word: a following token is preceded by exactly one ' '. */
  lemma {:induction false} SqueezeAfterWord(rest: string)
    requires rest == [] || IsSpace(rest[0])
    ensures SqueezeFrom(rest, true, false) == if Collapse(rest) == "" then "" else " " + Collapse(rest)
    decreases |rest|
  {
    if rest != [] {
      assert Split(rest) == Split(rest[1..]);
      SqueezeFromCollapse(rest[1..], true);
    }
  }

  lemma CombineWord(pre: string, w: string, tail: string, none: bool, joined: string)
    requires w != []
    requires joined == "" <==> none
    requires tail == if joined == "" then "" else " " + joined
    ensures var collapsed := if none then w else w + " " + joined;
            pre + w + tail == if collapsed == "" then "" else pre + collapsed
  {
  }

  /** s.split() joined with single spaces is the one-pass squeeze of s:
      whitespace runs inside s become one ' ' and runs at either end vanish. */
  lemma CollapseIsSqueeze(s: string)
    ensures Collapse(s) == Squeeze(s)
  {
    SqueezeFromCollapse(s, false);
  }

  /** The tokens of s.split() are the one list of whitespace-free, non-empty
      words that, joined with single spaces, give the squeeze of s. */
  lemma SplitSpec(s: string)
    ensures AllWords(Split(s)) && Join(Split(s)) == Squeeze(s)
    ensures forall words :: AllWords(words) && Join(words) == Squeeze(s) ==> words == Split(s)
  {
    CollapseIsSqueeze(s);
    forall words | AllWords(words) && Join(words) == Squeeze(s)
      ensures words == Split(s)
    {
      SplitJoin(words);
      SplitJoin(Split(s));
    }
  }

  /** The number of whitespace characters s starts with. */
  function LeadingSpaces(s: string): (n: nat)
    ensures n <= |s|
    ensures forall i :: 0 <= i < n ==> IsSpace(s[i])
    ensures n < |s| ==> !IsSpace(s[n])
  {
    if s != [] && IsSpace(s[0]) then 1 + LeadingSpaces(s[1..]) else 0
  }

  /** The number of whitespace characters s ends with. */
  function TrailingSpaces(s: string): (n: nat)
    ensures n <= |s|
    ensures forall i :: |s| - n <= i < |s| ==> IsSpace(s[i])
    ensures n < |s| ==> !IsSpace(s[|s| - 1 - n])
  {
    if s != [] && IsSpace(s[|s| - 1]) then 1 + TrailingSpaces(s[..|s| - 1]) else 0
  }

  /** s.strip(): s without its leading and trailing whitespace. */
  function Strip(s: string): string {
    var t := s[LeadingSpaces(s)..];
    t[..|t| - TrailingSpaces(t)]
  }

  /** r is the slice of s that starts at i, and everything of s before and
      after it is whitespace. */
  predicate TrimmedFrom(r: string, s: string, i: nat) {
    i + |r| <= |s| && r == s[i..i + |r|] &&
    (forall k :: 0 <= k < i ==> IsSpace(s[k])) &&
    (forall k :: i + |r| <= k < |s| ==> IsSpace(s[k]))
  }

  /** What strip promises: the result is a slice of s, everything cut off on
      either side is whitespace, no whitespace is left at either end, and s is
      returned unchanged exactly when it has no whitespace at its ends. */
  lemma StripSpec(s: string)
    ensures TrimmedFrom(Strip(s), s, LeadingSpaces(s))
    ensures var r := Strip(s); r == [] || (!IsSpace(r[0]) && !IsSpace(r[|r| - 1]))
    ensures Strip(s) == s <==> (s == [] || (!IsSpace(s[0]) && !IsSpace(s[|s| - 1])))
  {
    StripSlice(s);
    StripEnds(s);
    if s != [] && !IsSpace(s[0]) && !IsSpace(s[|s| - 1]) {
      assert LeadingSpaces(s) == 0;
      assert s[0..] == s;
      assert TrailingSpaces(s) == 0;
      assert s[..|s|] == s;
    }
  }

  lemma StripSlice(s: string)
    ensures TrimmedFrom(Strip(s), s, LeadingSpaces(s))
  {
    var a := LeadingSpaces(s);
    var t := s[a..];
    var m := |t| - TrailingSpaces(t);
    var r := Strip(s);
    assert r == t[..m];
    SliceOfSuffix(s, a, m);
    assert r == s[a..a + m];
    TrailingOfSuffix(s, a, m);
  }

  lemma StripEnds(s: string)
    ensures var r := Strip(s); r == [] || (!IsSpace(r[0]) && !IsSpace(r[|r| - 1]))
  {
    var a := LeadingSpaces(s);
    var t := s[a..];
    assert t == [] || t[0] == s[a];
    SpaceFreeEnds(t, |t| - TrailingSpaces(t));
  }

  /** Cutting the trailing whitespace off a string that starts with a
      non-space leaves no whitespace at either end. */
  lemma SpaceFreeEnds(t: string, m: nat)
    requires m == |t| - TrailingSpaces(t)
    requires t == [] || !IsSpace(t[0])
    ensures t[..m] == [] || (!IsSpace(t[..m][0]) && !IsSpace(t[..m][m - 1]))
  {
  }

  lemma SliceOfSuffix<T>(s: seq<T>, a: nat, m: nat)
    requires a + m <= |s|
    ensures s[a..][..m] == s[a..a + m]
  {
  }

  /** Whitespace at the end of the suffix s[a..] is whitespace at the end of s. */
  lemma TrailingOfSuffix(s: string, a: nat, m: nat)
    requires a <= |s| && m == |s[a..]| - TrailingSpaces(s[a..])
    ensures forall k :: a + m <= k < |s| ==> IsSpace(s[k])
  {
    var t := s[a..];
    forall k | a + m <= k < |s| ensures IsSpace(s[k]) {
      assert s[k] == t[k - a];
    }
  }

  /** needle occurs in hay starting at index i. */
  predicate OccursAt(needle: string, hay: string, i: nat) {
    i + |needle| <= |hay| && hay[i..i + |needle|] == needle
  }

  /** Python's `needle in hay` for strings. */
  predicate IsSubstring(needle: string, hay: string) {
    needle <= hay || (hay != [] && IsSubstring(needle, hay[1..]))
  }

  /** Dropping the first character of hay moves every occurrence one place left. */
  lemma OccursShift(needle: string, hay: string, i: nat)
    requires hay != []
    ensures OccursAt(needle, hay[1..], i) <==> OccursAt(needle, hay, i + 1)
  {
    if i + 1 + |needle| <= |hay| {
      var left, right := hay[1..][i..i + |needle|], hay[i + 1..i + 1 + |needle|];
      forall k | 0 <= k < |needle|
        ensures left[k] == right[k]
      {
        assert left[k] == hay[1..][i + k] == hay[i + 1 + k];
      }
      assert left == right;
    }
  }

  /** `in` holds exactly when needle occurs somewhere in hay; in particular
      the empty string is in every string. */
  lemma {:induction false} SubstringIffOccurs(needle: string, hay: string)
    ensures IsSubstring(needle, hay) <==> exists i: nat :: OccursAt(needle, hay, i)
  {
    if IsSubstring(needle, hay) {
      if needle <= hay {
        assert OccursAt(needle, hay, 0);
      } else {
        SubstringIffOccurs(needle, hay[1..]);
        var i: nat :| OccursAt(needle, hay[1..], i);
        OccursShift(needle, hay, i);
      }
    }
    if exists i: nat :: OccursAt(needle, hay, i) {
      var i: nat :| OccursAt(needle, hay, i);
      if i == 0 {
        assert needle <= hay;
      } else {
        OccursShift(needle, hay, i - 1);
        SubstringIffOccurs(needle, hay[1..]);
      }
    }
  }
}

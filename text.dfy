/** Whitespace trimming and single-space joining and splitting of words. */
module Text {

  /** The whitespace characters `String.prototype.trim` strips that can occur in the script's words. */
  predicate IsWhitespace(c: char) {
    c == ' ' || c == '\t' || c == '\n' || c == '\r'
  }

  /** `s` with its leading whitespace removed. */
  function TrimStart(s: string): (r: string)
    ensures |r| <= |s| && r == s[|s| - |r|..]
    ensures forall i :: 0 <= i < |s| - |r| ==> IsWhitespace(s[i])
    ensures r == [] || !IsWhitespace(r[0])
    decreases |s|
  {
    if |s| > 0 && IsWhitespace(s[0]) then TrimStart(s[1..]) else s
  }

  /** `s` with its trailing whitespace removed. */
  function TrimEnd(s: string): (r: string)
    ensures |r| <= |s| && r == s[..|r|]
    ensures forall i :: |r| <= i < |s| ==> IsWhitespace(s[i])
    ensures r == [] || !IsWhitespace(r[|r| - 1])
    decreases |s|
  {
    if |s| > 0 && IsWhitespace(s[|s| - 1]) then TrimEnd(s[..|s| - 1]) else s
  }

  /** `s.trim()`: leading and trailing whitespace removed, the middle kept. */
  function Trim(s: string): (r: string)
    ensures r == [] || (!IsWhitespace(r[0]) && !IsWhitespace(r[|r| - 1]))
  {
    TrimStart(TrimEnd(s))
  }

  /** A text with no whitespace at either end is its own trim. */
  lemma TrimUntouched(s: string)
    requires s == [] || (!IsWhitespace(s[0]) && !IsWhitespace(s[|s| - 1]))
    ensures Trim(s) == s
  {
  }

  /** Trailing whitespace does not survive the trim. */
  lemma TrimDropsTrailing(s: string, c: char)
    requires IsWhitespace(c)
    ensures Trim(s + [c]) == Trim(s)
  {
  }

  /** A word: non-empty and free of whitespace. */
  predicate IsWord(t: string) {
    |t| > 0 && forall i :: 0 <= i < |t| ==> !IsWhitespace(t[i])
  }

  predicate AllWords(ts: seq<string>) {
    forall k :: 0 <= k < |ts| ==> IsWord(ts[k])
  }

  /** The words of `ts` in order, separated by exactly one space. */
  function JoinSpaces(ts: seq<string>): string
    decreases |ts|
  {
    if |ts| == 0 then ""
    else if |ts| == 1 then ts[0]
    else ts[0] + " " + JoinSpaces(ts[1..])
  }

  /** No whitespace at either end and never two spaces in a row. */
  predicate WellSpaced(s: string) {
    (s == [] || (!IsWhitespace(s[0]) && !IsWhitespace(s[|s| - 1])))
    && forall i :: 0 <= i < |s| - 1 ==> !(s[i] == ' ' && s[i + 1] == ' ')
  }

  /** Joining two non-empty lists puts one space between their joins. */
  lemma {:induction false} JoinAppend(a: seq<string>, b: seq<string>)
    requires a != [] && b != []
    ensures JoinSpaces(a + b) == JoinSpaces(a) + " " + JoinSpaces(b)
    decreases |a|
  {
    if |a| == 1 {
      assert a + b == [a[0]] + b;
      assert (a + b)[1..] == b;
    } else {
      assert (a + b)[1..] == a[1..] + b;
      JoinAppend(a[1..], b);
    }
  }

  /** The join of words is empty exactly when there are none. */
  lemma JoinEmpty(ts: seq<string>)
    requires AllWords(ts)
    ensures JoinSpaces(ts) == "" <==> ts == []
  {
    if ts != [] {
      assert |ts[0]| > 0;
      if |ts| > 1 {
        assert JoinSpaces(ts) == ts[0] + " " + JoinSpaces(ts[1..]);
      }
    }
  }

  /** Joining words yields a well-spaced text that is empty exactly when there are no words. */
  lemma {:induction false} JoinWellSpaced(ts: seq<string>)
    requires AllWords(ts)
    ensures WellSpaced(JoinSpaces(ts))
    ensures JoinSpaces(ts) == "" <==> ts == []
    ensures ts != [] ==> JoinSpaces(ts)[0] == ts[0][0]
    decreases |ts|
  {
    if |ts| > 1 {
      JoinWellSpaced(ts[1..]);
      var s := JoinSpaces(ts);
      var h, t := ts[0], JoinSpaces(ts[1..]);
      assert s == h + " " + t;
      assert IsWord(h);
      forall i | 0 <= i < |s| - 1
        ensures !(s[i] == ' ' && s[i + 1] == ' ')
      {
        if i < |h| {
          assert s[i] == h[i];
        } else if i > |h| {
          assert s[i] == t[i - |h| - 1] && s[i + 1] == t[i - |h|];
        }
      }
    }
  }

  /** A join of two or more words has a space in it. */
  lemma JoinHasSpace(ts: seq<string>)
    requires |ts| >= 2
    ensures ' ' in JoinSpaces(ts)
  {
  }

  /** The first position of `c` in `s`. */
  function IndexOf(s: string, c: char): (k: nat)
    requires c in s
    ensures k < |s| && s[k] == c
    ensures forall j :: 0 <= j < k ==> s[j] != c
  {
    if s[0] == c then 0 else 1 + IndexOf(s[1..], c)
  }

  /** The words of `s`, cutting at every space. */
  function SplitSpaces(s: string): seq<string>
    decreases |s|
  {
    if ' ' !in s then (if s == "" then [] else [s])
    else
      var k := IndexOf(s, ' ');
      [s[..k]] + SplitSpaces(s[k + 1..])
  }

  /** The first space of `h + " " + t`, for a word `h`, is the one after `h`. */
  lemma FirstSpace(h: string, t: string)
    requires IsWord(h)
    ensures ' ' in h + " " + t && IndexOf(h + " " + t, ' ') == |h|
  {
    var s := h + " " + t;
    assert s[|h|] == ' ';
    assert forall j :: 0 <= j < |h| ==> s[j] == h[j];
  }

  /** Splitting a word, a space and a text gives the word, then the split of the text. */
  lemma SplitAfterWord(h: string, t: string)
    requires IsWord(h)
    ensures SplitSpaces(h + " " + t) == [h] + SplitSpaces(t)
  {
    var s := h + " " + t;
    FirstSpace(h, t);
    assert s[..|h|] == h;
    assert s[|h| + 1..] == t;
  }

  /** Splitting a join gives the words back. */
  lemma {:induction false} SplitJoin(ts: seq<string>)
    requires AllWords(ts)
    ensures SplitSpaces(JoinSpaces(ts)) == ts
    decreases |ts|
  {
    if |ts| == 1 {
      assert ' ' !in ts[0] by {
        assert IsWord(ts[0]);
      }
    } else if |ts| > 1 {
      assert IsWord(ts[0]);
      assert JoinSpaces(ts) == ts[0] + " " + JoinSpaces(ts[1..]);
      SplitAfterWord(ts[0], JoinSpaces(ts[1..]));
      SplitJoin(ts[1..]);
      assert ts == [ts[0]] + ts[1..];
    }
  }

  lemma AppendAssoc<T>(a: seq<T>, b: seq<T>, c: seq<T>)
    ensures (a + b) + c == a + (b + c)
  {
  }

  /** Joining words around one more word in the middle. */
  lemma JoinAround(a: seq<string>, w: string, b: seq<string>)
    requires a != []
    ensures JoinSpaces(a + [w] + b) == JoinSpaces(a) + ([' '] + w) + (if b == [] then "" else " " + JoinSpaces(b))
  {
    JoinAppend(a, [w]);
    if b != [] {
      JoinAppend(a + [w], b);
    } else {
      assert a + [w] + b == a + [w];
    }
  }
}

/** The Python `str` operations the trainer relies on, over `seq<char>`:
    whitespace splitting, stripping, lower-casing, prefix/suffix/substring
    tests and `replace('.txt', '')`. */
module Text {

  /** Python's `str.isspace()`, which is also the whitespace that `split()`,
      `strip()` and the regex class `\s` use. */
  predicate IsSpace(c: char) {
    || c == ' ' || c == '\t' || c == '\n' || c == '\r'
    || c == '\U{B}' || c == '\U{C}'
    || ('\U{1C}' <= c <= '\U{1F}')
    || c == '\U{85}' || c == '\U{A0}' || c == '\U{1680}'
    || ('\U{2000}' <= c <= '\U{200A}')
    || c == '\U{2028}' || c == '\U{2029}' || c == '\U{202F}' || c == '\U{205F}'
    || c == '\U{3000}'
  }

  /** The regex class `\w` (an alphanumeric character or `_`), exact up to
      U+00FF; characters above U+00FF are treated as non-word characters. */
  predicate IsWordChar(c: char) {
    || ('a' <= c <= 'z') || ('A' <= c <= 'Z') || ('0' <= c <= '9') || c == '_'
    || c == '\U{AA}' || c == '\U{B2}' || c == '\U{B3}' || c == '\U{B5}'
    || c == '\U{B9}' || c == '\U{BA}' || ('\U{BC}' <= c <= '\U{BE}')
    || ('\U{C0}' <= c <= '\U{FF}' && c != '\U{D7}' && c != '\U{F7}')
  }

  predicate IsUpper(c: char) {
    ('A' <= c <= 'Z') || ('\U{C0}' <= c <= '\U{DE}' && c != '\U{D7}')
  }

  /** `str.lower()` on one character, exact up to U+00FF. */
  function LowerChar(c: char): (r: char)
    ensures !IsUpper(r)
    ensures !IsUpper(c) ==> r == c
  {
    if IsUpper(c) then (c as int + 32) as char else c
  }

  /** `str.lower()`, character by character. */
  function Lower(s: string): (r: string)
    ensures |r| == |s|
  {
    if s == [] then [] else [LowerChar(s[0])] + Lower(s[1..])
  }

  lemma {:induction false} LowerIdempotent(s: string)
    ensures Lower(Lower(s)) == Lower(s)
  {
    if s != [] {
      LowerIdempotent(s[1..]);
      var l := Lower(s);
      assert l[0] == LowerChar(s[0]) && l[1..] == Lower(s[1..]);
    }
  }

  predicate StartsWith(s: string, prefix: string) {
    |prefix| <= |s| && s[..|prefix|] == prefix
  }

  predicate EndsWith(s: string, suffix: string) {
    |suffix| <= |s| && s[|s| - |suffix|..] == suffix
  }

  /** Python's `needle in hay` on strings. */
  predicate Contains(hay: string, needle: string)
    decreases |hay|
  {
    StartsWith(hay, needle) || (hay != [] && Contains(hay[1..], needle))
  }

  /** A token of `split()`: non-empty and free of whitespace. */
  predicate IsWord(w: string) {
    w != [] && forall i :: 0 <= i < |w| ==> !IsSpace(w[i])
  }

  /** The end of the run of non-space characters that starts at `i`. */
  function WordEnd(s: string, i: nat): (e: nat)
    requires i <= |s|
    ensures i <= e <= |s|
    ensures forall k :: i <= k < e ==> !IsSpace(s[k])
    ensures e == |s| || IsSpace(s[e])
    decreases |s| - i
  {
    if i == |s| || IsSpace(s[i]) then i else WordEnd(s, i + 1)
  }

  /** Python's `s.split()` with no separator: the maximal runs of non-space
      characters, in order. */
  function Split(s: string): (ws: seq<string>)
    ensures forall k :: 0 <= k < |ws| ==> IsWord(ws[k])
    decreases |s|
  {
    if s == [] then []
    else if IsSpace(s[0]) then Split(s[1..])
    else
      var e := WordEnd(s, 0);
      [s[..e]] + Split(s[e..])
  }

  /** Python's `' '.join(ws)`. */
  function Join(ws: seq<string>): string
  {
    if ws == [] then []
    else if |ws| == 1 then ws[0]
    else ws[0] + " " + Join(ws[1..])
  }

  /** Every non-space character of `s`, in order. */
  function NonSpace(s: string): string
  {
    if s == [] then []
    else (if IsSpace(s[0]) then [] else [s[0]]) + NonSpace(s[1..])
  }

  function Concat(ws: seq<string>): string
  {
    if ws == [] then [] else ws[0] + Concat(ws[1..])
  }

  lemma NonSpaceAppend(a: string, b: string)
    ensures NonSpace(a + b) == NonSpace(a) + NonSpace(b)
  {
    if a != [] {
      var ab := a + b;
      assert ab[0] == a[0];
      assert ab[1..] == a[1..] + b;
      NonSpaceAppend(a[1..], b);
      assert NonSpace(ab) == (if IsSpace(a[0]) then [] else [a[0]]) + NonSpace(a[1..] + b);
    } else {
      assert a + b == b;
    }
  }

  lemma {:induction false} NonSpaceOfWord(w: string)
    requires forall i :: 0 <= i < |w| ==> !IsSpace(w[i])
    ensures NonSpace(w) == w
  {
    if w != [] {
      NonSpaceOfWord(w[1..]);
    }
  }

  /** The tokens of `split()` lose exactly the whitespace: gluing them back
      together gives the non-space characters of the input. */
  lemma {:induction false} SplitKeepsNonSpace(s: string)
    ensures Concat(Split(s)) == NonSpace(s)
    decreases |s|
  {
    if s != [] {
      if IsSpace(s[0]) {
        SplitKeepsNonSpace(s[1..]);
      } else {
        var e := WordEnd(s, 0);
        SplitKeepsNonSpace(s[e..]);
        NonSpaceOfWord(s[..e]);
        NonSpaceAppend(s[..e], s[e..]);
        assert s == s[..e] + s[e..];
        assert Split(s) == [s[..e]] + Split(s[e..]);
      }
    }
  }

  lemma {:induction false} SplitSpacePrefix(sp: string, s: string)
    requires forall i :: 0 <= i < |sp| ==> IsSpace(sp[i])
    ensures Split(sp + s) == Split(s)
  {
    if sp != [] {
      var t := sp + s;
      assert t[0] == sp[0];
      assert t[1..] == sp[1..] + s;
      assert Split(t) == Split(t[1..]);
      SplitSpacePrefix(sp[1..], s);
    } else {
      assert sp + s == s;
    }
  }

  lemma WordEndOfWord(w: string, rest: string)
    requires IsWord(w)
    requires rest == [] || IsSpace(rest[0])
    ensures WordEnd(w + rest, 0) == |w|
  {
    var s := w + rest;
    assert forall k :: 0 <= k < |w| ==> s[k] == w[k];
    assert |w| == |s| || s[|w|] == rest[0];
  }

  /** `split()` undoes `' '.join` on a list of tokens. */
  lemma {:induction false} SplitJoin(ws: seq<string>)
    requires forall k :: 0 <= k < |ws| ==> IsWord(ws[k])
    ensures Split(Join(ws)) == ws
  {
    if ws == [] {
    } else if |ws| == 1 {
      var w := ws[0];
      WordEndOfWord(w, []);
      assert w + [] == w;
      assert w[|w|..] == [];
    } else {
      var w := ws[0];
      var rest := " " + Join(ws[1..]);
      var s := w + rest;
      assert Join(ws) == s;
      WordEndOfWord(w, rest);
      assert s[..|w|] == w;
      assert s[|w|..] == rest;
      SplitJoin(ws[1..]);
      SplitSpacePrefix(" ", Join(ws[1..]));
      assert Split(s) == [w] + Split(rest);
    }
  }

  /** Python's `s.lstrip()`. */
  function TrimLeft(s: string): (r: string)
    ensures |r| <= |s| && r == s[|s| - |r|..]
    ensures forall i :: 0 <= i < |s| - |r| ==> IsSpace(s[i])
    ensures r == [] || !IsSpace(r[0])
  {
    if s != [] && IsSpace(s[0]) then TrimLeft(s[1..]) else s
  }

  /** Python's `s.rstrip()`. */
  function TrimRight(s: string): (r: string)
    ensures |r| <= |s| && r == s[..|r|]
    ensures forall i :: |r| <= i < |s| ==> IsSpace(s[i])
    ensures r == [] || !IsSpace(r[|r| - 1])
  {
    if s != [] && IsSpace(s[|s| - 1]) then TrimRight(s[..|s| - 1]) else s
  }

  /** Python's `s.strip()`. */
  function Strip(s: string): (r: string)
    ensures r == [] || (!IsSpace(r[0]) && !IsSpace(r[|r| - 1]))
  {
    TrimRight(TrimLeft(s))
  }

  /** `strip()` cuts off exactly the leading and the trailing whitespace:
      the result is a slice of the input with only whitespace around it. */
  lemma StripIsTrimmedSlice(s: string)
    ensures exists i, j ::
              && 0 <= i <= j <= |s| && Strip(s) == s[i..j]
              && (forall k :: 0 <= k < i ==> IsSpace(s[k]))
              && (forall k :: j <= k < |s| ==> IsSpace(s[k]))
  {
    var l := TrimLeft(s);
    var r := TrimRight(l);
    var i := |s| - |l|;
    var j := i + |r|;
    assert Strip(s) == s[i..j] by {
      assert l == s[i..];
      assert r == l[..|r|];
    }
    assert forall k :: j <= k < |s| ==> IsSpace(s[k]) by {
      forall k | j <= k < |s|
        ensures IsSpace(s[k])
      {
        assert s[k] == l[k - i];
      }
    }
    assert forall k :: 0 <= k < i ==> IsSpace(s[k]);
    assert 0 <= i <= j <= |s|;
  }

  lemma StripIdempotent(s: string)
    ensures Strip(Strip(s)) == Strip(s)
  {
    var r := Strip(s);
    assert TrimLeft(r) == r;
    assert TrimRight(r) == r;
  }

  /** Python's `s.replace('.txt', '')`: every occurrence found in one
      left-to-right scan is removed. */
  function RemoveTxt(s: string): (r: string)
    ensures |r| <= |s|
    decreases |s|
  {
    if s == [] then []
    else if StartsWith(s, ".txt") then RemoveTxt(s[4..])
    else [s[0]] + RemoveTxt(s[1..])
  }

  /** For a file name `stem.txt` whose stem holds no `.txt`, the display
      name is the stem: no occurrence can straddle the stem and the suffix,
      since `.` sits where the suffix has `t` or `x`. */
  lemma {:induction false} RemoveTxtOfFileName(stem: string)
    requires !Contains(stem, ".txt")
    ensures RemoveTxt(stem + ".txt") == stem
  {
    var s := stem + ".txt";
    if stem == [] {
      assert s == ".txt";
      assert s[4..] == [];
    } else {
      assert !StartsWith(s, ".txt") by {
        if |stem| >= 4 {
          assert s[..4] == stem[..4];
        } else {
          assert s[|stem|] == '.';
        }
      }
      assert s[1..] == stem[1..] + ".txt";
      RemoveTxtOfFileName(stem[1..]);
      assert [stem[0]] + stem[1..] == stem;
    }
  }

}

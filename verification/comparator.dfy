/** `compare_texts`: both texts are split into words, the two word lists are
    aligned by a line diff, and every diff line becomes a verdict — a word
    present in both (Match), only in the reference (Missing) or only in the
    submission (Extra). The answer is correct when no Missing or Extra
    verdict occurs.

    `difflib.ndiff` is modelled by `Diff`, a longest-common-subsequence
    alignment; `Classify`, the loop over the diff lines, is stated for every
    line sequence, so its guarantees hold whichever alignment the library
    picks. */
module Comparator {
  import opened Text

  /** One line of `ndiff` output as the loop reads it: the code character in
      front (`' '`, `'-'`, `'+'`, or `'?'` for a hint line) and the word
      after the two-character prefix. */
  datatype DiffUnit = DiffUnit(code: char, word: string)

  const SameCode: char := ' '
  const RemovedCode: char := '-'
  const AddedCode: char := '+'
  const HintCode: char := '?'

  /** The words a diff takes from its left-hand list, in order. */
  function Left(e: seq<DiffUnit>): seq<string>
  {
    if e == [] then []
    else (if e[0].code == SameCode || e[0].code == RemovedCode then [e[0].word] else [])
         + Left(e[1..])
  }

  /** The words a diff takes from its right-hand list, in order. */
  function Right(e: seq<DiffUnit>): seq<string>
  {
    if e == [] then []
    else (if e[0].code == SameCode || e[0].code == AddedCode then [e[0].word] else [])
         + Right(e[1..])
  }

  /** `e` is an edit script turning the word list `a` into `b`. */
  predicate IsScript(e: seq<DiffUnit>, a: seq<string>, b: seq<string>) {
    Left(e) == a && Right(e) == b
  }

  function CountCode(e: seq<DiffUnit>, c: char): nat
  {
    if e == [] then 0 else (if e[0].code == c then 1 else 0) + CountCode(e[1..], c)
  }

  lemma {:induction false} ScriptLengths(e: seq<DiffUnit>)
    ensures |Left(e)| == CountCode(e, SameCode) + CountCode(e, RemovedCode)
    ensures |Right(e)| == CountCode(e, SameCode) + CountCode(e, AddedCode)
  {
    if e != [] {
      ScriptLengths(e[1..]);
    }
  }

  /** A script without removals or additions takes the same words from both
      sides. */
  lemma {:induction false} UnchangedScript(e: seq<DiffUnit>)
    requires CountCode(e, RemovedCode) == 0 && CountCode(e, AddedCode) == 0
    ensures Left(e) == Right(e)
  {
    if e != [] {
      UnchangedScript(e[1..]);
    }
  }

  /** Length of a longest common subsequence of two word lists. */
  function Lcs(a: seq<string>, b: seq<string>): nat
    decreases |a| + |b|
  {
    if a == [] || b == [] then 0
    else if a[0] == b[0] then 1 + Lcs(a[1..], b[1..])
    else
      var l := Lcs(a[1..], b);
      var r := Lcs(a, b[1..]);
      if l >= r then l else r
  }

  /** Dropping the first word on the left loses at most one common word. */
  lemma {:induction false} LcsDropLeft(a: seq<string>, y: seq<string>)
    requires a != []
    ensures Lcs(a[1..], y) <= Lcs(a, y) <= Lcs(a[1..], y) + 1
    decreases |a| + |y|, 1
  {
    if y != [] {
      LcsDropRight(a[1..], y);
      if a[0] != y[0] {
        LcsDropLeft(a, y[1..]);
      }
    }
  }

  /** Dropping the first word on the right loses at most one common word. */
  lemma {:induction false} LcsDropRight(x: seq<string>, b: seq<string>)
    requires b != []
    ensures Lcs(x, b[1..]) <= Lcs(x, b) <= Lcs(x, b[1..]) + 1
    decreases |x| + |b|, 0
  {
    if x != [] {
      LcsDropLeft(x, b[1..]);
      if x[0] != b[0] {
        LcsDropRight(x[1..], b);
      }
    }
  }

  lemma {:induction false} LcsSelf(a: seq<string>)
    ensures Lcs(a, a) == |a|
  {
    if a != [] {
      LcsSelf(a[1..]);
    }
  }

  /** The alignment standing in for `difflib.ndiff`: equal leading words are
      kept, otherwise the side whose removal keeps the longer common
      subsequence is consumed, the reference side first on a tie. */
  function Diff(a: seq<string>, b: seq<string>): (e: seq<DiffUnit>)
    ensures IsScript(e, a, b)
    ensures CountCode(e, SameCode) == Lcs(a, b)
    ensures forall i :: 0 <= i < |e| ==>
              e[i].code == SameCode || e[i].code == RemovedCode || e[i].code == AddedCode
    decreases |a| + |b|
  {
    if a == [] && b == [] then []
    else if a == [] then [DiffUnit(AddedCode, b[0])] + Diff(a, b[1..])
    else if b == [] then [DiffUnit(RemovedCode, a[0])] + Diff(a[1..], b)
    else if a[0] == b[0] then [DiffUnit(SameCode, a[0])] + Diff(a[1..], b[1..])
    else if Lcs(a[1..], b) >= Lcs(a, b[1..]) then [DiffUnit(RemovedCode, a[0])] + Diff(a[1..], b)
    else [DiffUnit(AddedCode, b[0])] + Diff(a, b[1..])
  }

  /** No edit script keeps more words than a longest common subsequence, so
      `Diff` is a longest alignment. */
  lemma {:induction false} ScriptKeepsAtMostLcs(e: seq<DiffUnit>, a: seq<string>, b: seq<string>)
    requires IsScript(e, a, b)
    ensures CountCode(e, SameCode) <= Lcs(a, b)
  {
    if e != [] {
      var u, rest := e[0], e[1..];
      if u.code == SameCode {
        ScriptKeepsAtMostLcs(rest, a[1..], b[1..]);
      } else if u.code == RemovedCode {
        ScriptKeepsAtMostLcs(rest, a[1..], b);
        LcsDropLeft(a, b);
      } else if u.code == AddedCode {
        ScriptKeepsAtMostLcs(rest, a, b[1..]);
        LcsDropRight(a, b);
      } else {
        ScriptKeepsAtMostLcs(rest, a, b);
      }
    }
  }

  datatype Verdict = Match(word: string) | Missing(word: string) | Extra(word: string)

  /** The outcome of `compare_texts`: the verdict per diff line (rendered as
      coloured badges by the source) and the `is_correct` flag. */
  datatype Comparison = Comparison(verdicts: seq<Verdict>, isCorrect: bool)

  /** The reference words a verdict sequence accounts for: Match and Missing. */
  function Reference(vs: seq<Verdict>): seq<string>
  {
    if vs == [] then []
    else (if vs[0].Extra? then [] else [vs[0].word]) + Reference(vs[1..])
  }

  /** The submitted words a verdict sequence accounts for: Match and Extra. */
  function Submission(vs: seq<Verdict>): seq<string>
  {
    if vs == [] then []
    else (if vs[0].Missing? then [] else [vs[0].word]) + Submission(vs[1..])
  }

  lemma {:induction false} VerdictWordsAccounted(vs: seq<Verdict>)
    ensures forall i :: 0 <= i < |vs| && !vs[i].Extra? ==> vs[i].word in Reference(vs)
    ensures forall i :: 0 <= i < |vs| && !vs[i].Missing? ==> vs[i].word in Submission(vs)
  {
    if vs != [] {
      VerdictWordsAccounted(vs[1..]);
      forall i | 1 <= i < |vs| ensures vs[i] == vs[1..][i - 1] { }
    }
  }

  /** The loop of `compare_texts` over the diff lines: `' '`, `'-'` and `'+'`
      lines give Match, Missing and Extra; other lines (the `'?'` hints)
      give nothing. The answer stays correct until a `'-'` or `'+'` line. */
  function Classify(e: seq<DiffUnit>): (r: Comparison)
    ensures Reference(r.verdicts) == Left(e)
    ensures Submission(r.verdicts) == Right(e)
    ensures CountMatch(r.verdicts) == CountCode(e, SameCode)
    ensures CountMissing(r.verdicts) == CountCode(e, RemovedCode)
    ensures CountExtra(r.verdicts) == CountCode(e, AddedCode)
    ensures r.isCorrect <==> CountCode(e, RemovedCode) == 0 && CountCode(e, AddedCode) == 0
  {
    if e == [] then Comparison([], true)
    else
      var u, rest := e[0], Classify(e[1..]);
      ConsVerdict(UnitVerdict(u), rest.verdicts);
      Comparison(UnitVerdict(u) + rest.verdicts,
                 rest.isCorrect && u.code != RemovedCode && u.code != AddedCode)
  }

  lemma ConsVerdict(v: seq<Verdict>, vs: seq<Verdict>)
    requires |v| <= 1
    ensures Reference(v + vs) == Reference(v) + Reference(vs)
    ensures Submission(v + vs) == Submission(v) + Submission(vs)
    ensures CountMatch(v + vs) == CountMatch(v) + CountMatch(vs)
    ensures CountMissing(v + vs) == CountMissing(v) + CountMissing(vs)
    ensures CountExtra(v + vs) == CountExtra(v) + CountExtra(vs)
  {
    if |v| == 1 {
      ConsOneVerdict(v[0], vs);
    } else {
      assert v + vs == vs;
    }
  }

  lemma ConsOneVerdict(x: Verdict, vs: seq<Verdict>)
    ensures Reference([x] + vs) == Reference([x]) + Reference(vs)
    ensures Submission([x] + vs) == Submission([x]) + Submission(vs)
    ensures CountMatch([x] + vs) == CountMatch([x]) + CountMatch(vs)
    ensures CountMissing([x] + vs) == CountMissing([x]) + CountMissing(vs)
    ensures CountExtra([x] + vs) == CountExtra([x]) + CountExtra(vs)
  {
    var w := [x] + vs;
    assert w[0] == x && w[1..] == vs;
    assert [x][1..] == [];
  }

  /** The verdict a single diff line contributes, if any. */
  function UnitVerdict(u: DiffUnit): seq<Verdict>
  {
    if u.code == SameCode then [Match(u.word)]
    else if u.code == RemovedCode then [Missing(u.word)]
    else if u.code == AddedCode then [Extra(u.word)]
    else []
  }

  /** Classifying a diff line by line: the verdicts of two pieces are
      concatenated and both must be correct. */
  lemma {:induction false} ClassifyAppend(e1: seq<DiffUnit>, e2: seq<DiffUnit>)
    ensures Classify(e1 + e2)
         == Comparison(Classify(e1).verdicts + Classify(e2).verdicts,
                       Classify(e1).isCorrect && Classify(e2).isCorrect)
  {
    if e1 == [] {
      assert e1 + e2 == e2;
    } else {
      var e := e1 + e2;
      assert e[1..] == e1[1..] + e2;
      assert e[0] == e1[0];
      ClassifyAppend(e1[1..], e2);
      var u := e1[0];
      var v1, v2 := Classify(e1[1..]).verdicts, Classify(e2).verdicts;
      assert UnitVerdict(u) + (v1 + v2) == (UnitVerdict(u) + v1) + v2;
    }
  }

  /** A hint line anywhere in the diff changes neither the verdicts nor the
      flag. */
  lemma HintLineIgnored(e1: seq<DiffUnit>, hint: string, e2: seq<DiffUnit>)
    ensures Classify(e1 + [DiffUnit(HintCode, hint)] + e2) == Classify(e1 + e2)
  {
    var h := [DiffUnit(HintCode, hint)];
    ClassifyAppend(e1 + h, e2);
    ClassifyAppend(e1, h);
    ClassifyAppend(e1, e2);
    assert Classify(h) == Comparison([], true);
    assert Classify(e1).verdicts + [] == Classify(e1).verdicts;
  }

  /** Whatever alignment is used, a correct verdict means the two word lists
      are equal. */
  lemma ScriptCorrectMeansEqual(e: seq<DiffUnit>, a: seq<string>, b: seq<string>)
    requires IsScript(e, a, b)
    requires Classify(e).isCorrect
    ensures a == b
  {
    UnchangedScript(e);
  }

  /** On a longest alignment the flag does not depend on how ties were
      broken: it is set exactly when the two word lists are equal. */
  lemma LongestScriptCorrectIffEqual(e: seq<DiffUnit>, a: seq<string>, b: seq<string>)
    requires IsScript(e, a, b)
    requires CountCode(e, SameCode) == Lcs(a, b)
    ensures Classify(e).isCorrect <==> a == b
  {
    ScriptLengths(e);
    if Classify(e).isCorrect {
      UnchangedScript(e);
    }
    if a == b {
      LcsSelf(a);
    }
  }

  /** `compare_texts(original, user_input)`. */
  function CompareTexts(original: string, userInput: string): (r: Comparison)
    ensures Reference(r.verdicts) == Split(original)
    ensures Submission(r.verdicts) == Split(userInput)
    ensures r.isCorrect <==> Split(original) == Split(userInput)
    ensures r.isCorrect <==> AllMatch(r.verdicts)
    ensures forall i :: 0 <= i < |r.verdicts| ==> IsWord(r.verdicts[i].word)
    ensures |r.verdicts| == |Split(original)| + |Split(userInput)| - Lcs(Split(original), Split(userInput))
  {
    var a := Split(original);
    var b := Split(userInput);
    var e := Diff(a, b);
    var r := Classify(e);
    LongestScriptCorrectIffEqual(e, a, b);
    ScriptLengths(e);
    VerdictCounts(r.verdicts);
    VerdictWordsAccounted(r.verdicts);
    r
  }

  function CountMatch(vs: seq<Verdict>): nat
  {
    if vs == [] then 0 else (if vs[0].Match? then 1 else 0) + CountMatch(vs[1..])
  }

  function CountMissing(vs: seq<Verdict>): nat
  {
    if vs == [] then 0 else (if vs[0].Missing? then 1 else 0) + CountMissing(vs[1..])
  }

  function CountExtra(vs: seq<Verdict>): nat
  {
    if vs == [] then 0 else (if vs[0].Extra? then 1 else 0) + CountExtra(vs[1..])
  }

  predicate AllMatch(vs: seq<Verdict>) {
    forall i :: 0 <= i < |vs| ==> vs[i].Match?
  }

  lemma {:induction false} VerdictCounts(vs: seq<Verdict>)
    ensures |vs| == CountMatch(vs) + CountMissing(vs) + CountExtra(vs)
    ensures |Reference(vs)| == CountMatch(vs) + CountMissing(vs)
    ensures |Submission(vs)| == CountMatch(vs) + CountExtra(vs)
    ensures AllMatch(vs) <==> CountMissing(vs) == 0 && CountExtra(vs) == 0
  {
    if vs != [] {
      VerdictCounts(vs[1..]);
      if !vs[0].Match? {
        assert !AllMatch(vs);
      }
      if AllMatch(vs[1..]) && vs[0].Match? {
        forall i | 0 <= i < |vs| ensures vs[i].Match? {
          if i > 0 { assert vs[i] == vs[1..][i - 1]; }
        }
      }
      if AllMatch(vs) {
        forall i | 0 <= i < |vs[1..]| ensures vs[1..][i].Match? {
          assert vs[1..][i] == vs[i + 1];
        }
      }
    }
  }

  /** Token conservation: every reference word is a Match or a Missing,
      every submitted word a Match or an Extra. */
  lemma CompareConservesTokens(original: string, userInput: string)
    ensures CountMatch(CompareTexts(original, userInput).verdicts)
          + CountMissing(CompareTexts(original, userInput).verdicts) == |Split(original)|
    ensures CountMatch(CompareTexts(original, userInput).verdicts)
          + CountExtra(CompareTexts(original, userInput).verdicts) == |Split(userInput)|
  {
    VerdictCounts(CompareTexts(original, userInput).verdicts);
  }

  /** Comparing a text with itself gives one Match per word and a correct
      answer. */
  lemma CompareIdentity(s: string)
    ensures CompareTexts(s, s).isCorrect
    ensures |CompareTexts(s, s).verdicts| == |Split(s)|
    ensures forall i :: 0 <= i < |CompareTexts(s, s).verdicts| ==>
              CompareTexts(s, s).verdicts[i] == Match(Split(s)[i])
  {
    var vs := CompareTexts(s, s).verdicts;
    LcsSelf(Split(s));
    AllMatchReference(vs);
  }

  lemma {:induction false} AllMatchReference(vs: seq<Verdict>)
    requires forall i :: 0 <= i < |vs| ==> vs[i].Match?
    ensures |Reference(vs)| == |vs|
    ensures forall i :: 0 <= i < |vs| ==> vs[i] == Match(Reference(vs)[i])
  {
    if vs != [] {
      AllMatchReference(vs[1..]);
    }
  }

  /** Comparing against an empty answer gives one Missing per reference
      word, and the answer is correct only if the reference has no word. */
  lemma CompareAgainstEmpty(s: string)
    ensures CompareTexts(s, "").isCorrect <==> Split(s) == []
    ensures |CompareTexts(s, "").verdicts| == |Split(s)|
    ensures forall i :: 0 <= i < |CompareTexts(s, "").verdicts| ==>
              CompareTexts(s, "").verdicts[i] == Missing(Split(s)[i])
  {
    var vs := CompareTexts(s, "").verdicts;
    assert Split("") == [];
    VerdictCounts(vs);
    NoSubmissionReference(vs);
  }

  lemma {:induction false} NoSubmissionReference(vs: seq<Verdict>)
    requires Submission(vs) == []
    ensures |Reference(vs)| == |vs|
    ensures forall i :: 0 <= i < |vs| ==> vs[i] == Missing(Reference(vs)[i])
  {
    if vs != [] {
      NoSubmissionReference(vs[1..]);
    }
  }
}

/** The dictation files: listing the `.txt` files of the dictation folder,
    parsing one file into sentences and `# key: value` metadata, and the
    metadata of every dictation. The folder listing and the file contents are
    parameters; nothing is read here. */
module Diktat {
  import opened Text
  import opened Outcomes
  import StrOrder
  import Seqs

  /** `get_diktate_list`: the names ending in `.txt`, sorted. */
  function DiktateList(names: seq<string>): (r: seq<string>)
    ensures StrOrder.Sorted(r)
    ensures forall x :: x in r <==> x in names && EndsWith(x, ".txt")
    ensures multiset(r) == multiset(TxtNames(names))
  {
    var r := StrOrder.Sort(TxtNames(names));
    TxtNamesMembers(names);
    assert forall x :: x in r <==> x in multiset(r);
    assert forall x :: x in TxtNames(names) <==> x in multiset(TxtNames(names));
    r
  }

  /** The names ending in `.txt`, in listing order. */
  function TxtNames(names: seq<string>): seq<string>
  {
    if names == [] then []
    else (if EndsWith(names[0], ".txt") then [names[0]] else []) + TxtNames(names[1..])
  }

  lemma {:induction false} TxtNamesMembers(names: seq<string>)
    ensures forall x :: x in TxtNames(names) <==> x in names && EndsWith(x, ".txt")
  {
    if names != [] {
      TxtNamesMembers(names[1..]);
      assert names == [names[0]] + names[1..];
    }
  }

  /** A key of the regex group `(\w+)`. */
  predicate IsKey(k: string) {
    k != [] && forall i :: 0 <= i < |k| ==> IsWordChar(k[i])
  }

  /** The end of the run of whitespace starting at `i` (greedy `\s*`). */
  function SpaceEnd(s: string, i: nat): (e: nat)
    requires i <= |s|
    ensures i <= e <= |s|
    ensures forall k :: i <= k < e ==> IsSpace(s[k])
    ensures e == |s| || !IsSpace(s[e])
    decreases |s| - i
  {
    if i < |s| && IsSpace(s[i]) then SpaceEnd(s, i + 1) else i
  }

  /** The end of the run of word characters starting at `i` (greedy `\w+`). */
  function WordCharEnd(s: string, i: nat): (e: nat)
    requires i <= |s|
    ensures i <= e <= |s|
    ensures forall k :: i <= k < e ==> IsWordChar(s[k])
    ensures e == |s| || !IsWordChar(s[e])
    decreases |s| - i
  {
    if i < |s| && IsWordChar(s[i]) then WordCharEnd(s, i + 1) else i
  }

  /** The end of the run of characters other than a line break starting at
      `i` (greedy `.+`). */
  function LineEnd(s: string, i: nat): (e: nat)
    requires i <= |s|
    ensures i <= e <= |s|
    ensures forall k :: i <= k < e ==> s[k] != '\n'
    ensures e == |s| || s[e] == '\n'
    decreases |s| - i
  {
    if i < |s| && s[i] != '\n' then LineEnd(s, i + 1) else i
  }

  /** The group `(.+)` of `\s*(.+)` when `\s*` has consumed `s[p..k]`: `.+`
      starts at `k`, and if it cannot, `\s*` gives back one character at a
      time down to `p`. */
  function ValueFrom(s: string, p: nat, k: nat): (r: Option<string>)
    requires p <= k <= |s|
    ensures r.Some? ==> r.value != [] && forall i :: 0 <= i < |r.value| ==> r.value[i] != '\n'
    decreases k - p
  {
    if k < |s| && s[k] != '\n' then Some(s[k..LineEnd(s, k)])
    else if k == p then None
    else ValueFrom(s, p, k - 1)
  }

  /** `re.match(r'#\s*(\w+):\s*(.+)', line)`: the two groups, or None when
      the pattern does not match at the start of the line. */
  function HeaderMatch(line: string): (r: Option<(string, string)>)
    ensures r.Some? ==> |line| > 0 && line[0] == '#'
    ensures r.Some? ==> IsKey(r.value.0)
    ensures r.Some? ==> r.value.1 != [] && forall i :: 0 <= i < |r.value.1| ==> r.value.1[i] != '\n'
  {
    if line == [] || line[0] != '#' then None
    else
      var i := SpaceEnd(line, 1);
      var j := WordCharEnd(line, i);
      if j == i || j == |line| || line[j] != ':' then None
      else
        match ValueFrom(line, j + 1, SpaceEnd(line, j + 1))
        case Some(v) => Some((line[i..j], v))
        case None => None
  }

  predicate AllSpace(ws: string) {
    forall i :: 0 <= i < |ws| ==> IsSpace(ws[i])
  }

  /** `line` reads `#`, whitespace, the key, `:`, whitespace, the value,
      then either nothing or a line break and whatever follows it. */
  predicate HeaderForm(line: string, ws1: string, key: string, ws2: string, value: string, rest: string) {
    && AllSpace(ws1) && AllSpace(ws2)
    && line == "#" + ws1 + key + ":" + ws2 + value + rest
    && (rest == [] || rest[0] == '\n')
  }

  /** Where a greedy run must end: after exactly the characters of the
      class. */
  lemma SpaceEndAt(s: string, i: nat, e: nat)
    requires i <= e <= |s|
    requires forall k :: i <= k < e ==> IsSpace(s[k])
    requires e == |s| || !IsSpace(s[e])
    ensures SpaceEnd(s, i) == e
  {
  }

  lemma WordCharEndAt(s: string, i: nat, e: nat)
    requires i <= e <= |s|
    requires forall k :: i <= k < e ==> IsWordChar(s[k])
    requires e == |s| || !IsWordChar(s[e])
    ensures WordCharEnd(s, i) == e
  {
  }

  lemma LineEndAt(s: string, i: nat, e: nat)
    requires i <= e <= |s|
    requires forall k :: i <= k < e ==> s[k] != '\n'
    requires e == |s| || s[e] == '\n'
    ensures LineEnd(s, i) == e
  {
  }

  /** The start of the group `(.+)`: where `\s*` stopped, or, when nothing
      of the line is left there, one character earlier (the last one `\s*`
      gives back), which the group then holds alone. */
  lemma {:induction false} ValueStart(s: string, p: nat, k: nat) returns (m: nat)
    requires p <= k <= |s|
    requires ValueFrom(s, p, k).Some?
    ensures p <= m <= k && m < |s| && s[m] != '\n'
    ensures ValueFrom(s, p, k).value == s[m..LineEnd(s, m)]
    ensures m < k ==> LineEnd(s, m) == m + 1
    decreases k - p
  {
    if k < |s| && s[k] != '\n' {
      m := k;
    } else {
      m := ValueStart(s, p, k - 1);
      if m == k - 1 {
        LineEndAt(s, m, k);
      }
    }
  }

  /** The pieces of a header line sit at the offsets their lengths give. */
  lemma HeaderFormSlices(line: string, ws1: string, key: string, ws2: string, value: string, rest: string)
    requires line == "#" + ws1 + key + ":" + ws2 + value + rest
    ensures var i := 1 + |ws1|; var j := i + |key|; var k := j + 1 + |ws2|; var e := k + |value|;
            && e <= |line| && line[0] == '#' && line[j] == ':'
            && line[1..i] == ws1 && line[i..j] == key && line[j + 1..k] == ws2
            && line[k..e] == value && line[e..] == rest
  {
    var p0 := "#" + ws1;
    var p1 := p0 + key;
    var p2 := p1 + ":";
    var p3 := p2 + ws2;
    var p4 := p3 + value;
    assert line == p4 + rest;
    var i, j, k, e := |p0|, |p1|, |p2| + |ws2|, |p4|;
    assert line[..e] == p4 && line[e..] == rest;
    assert p4[..k] == p3 && p4[k..] == value;
    assert p3[..j + 1] == p2 && p3[j + 1..] == ws2;
    assert p2[..j] == p1 && p2[j] == ':';
    assert p1[..i] == p0 && p1[i..] == key;
    assert p0[0] == '#' && p0[1..] == ws1;
    assert line[k..e] == p4[k..e];
    assert line[j + 1..k] == p3[j + 1..k] == p4[j + 1..k];
    assert line[i..j] == p1[i..j];
    assert line[1..i] == p0[1..i];
  }

  /** A line cut at the offsets of its pieces is those pieces again. */
  lemma Reassemble(line: string, i: nat, j: nat, m: nat, e: nat)
    requires 1 <= i <= j < m <= e <= |line|
    requires line[0] == '#' && line[j] == ':'
    ensures line == "#" + line[1..i] + line[i..j] + ":" + line[j + 1..m] + line[m..e] + line[e..]
  {
    assert line[..1] == "#";
    assert line[..i] == "#" + line[1..i];
    assert line[..j] == line[..i] + line[i..j];
    assert line[..j + 1] == line[..j] + ":";
    assert line[..m] == line[..j + 1] + line[j + 1..m];
    assert line[..e] == line[..m] + line[m..e];
    assert line == line[..e] + line[e..];
  }

  /** The match, read off the ends of the three greedy runs. */
  lemma HeaderMatchAt(line: string, i: nat, j: nat, k: nat, e: nat)
    requires 1 <= |line| && line[0] == '#'
    requires 1 <= i <= |line| && SpaceEnd(line, 1) == i
    requires i < j < |line| && WordCharEnd(line, i) == j && line[j] == ':'
    requires j + 1 <= k < |line| && SpaceEnd(line, j + 1) == k && line[k] != '\n'
    requires k <= e <= |line| && LineEnd(line, k) == e
    ensures HeaderMatch(line) == Some((line[i..j], line[k..e]))
  {
  }

  /** The match of a line cut into its pieces at offsets `i`, `j`, `k`
      and `e`. */
  lemma HeaderOfPieces(line: string, i: nat, j: nat, k: nat, e: nat, key: string, value: string)
    requires 1 <= i <= j < k <= e <= |line| && line[0] == '#' && line[j] == ':'
    requires AllSpace(line[1..i]) && line[i..j] == key && AllSpace(line[j + 1..k]) && line[k..e] == value
    requires e == |line| || line[e] == '\n'
    requires IsKey(key)
    requires value != [] && !IsSpace(value[0])
    requires forall x :: 0 <= x < |value| ==> value[x] != '\n'
    ensures HeaderMatch(line) == Some((key, value))
  {
    assert forall x :: 1 <= x < i ==> IsSpace(line[x]) by {
      forall x | 1 <= x < i ensures IsSpace(line[x]) { assert line[x] == line[1..i][x - 1]; }
    }
    assert forall x :: i <= x < j ==> IsWordChar(line[x]) by {
      forall x | i <= x < j ensures IsWordChar(line[x]) { assert line[x] == key[x - i]; }
    }
    assert forall x :: j + 1 <= x < k ==> IsSpace(line[x]) by {
      forall x | j + 1 <= x < k ensures IsSpace(line[x]) { assert line[x] == line[j + 1..k][x - j - 1]; }
    }
    assert forall x :: k <= x < e ==> line[x] != '\n' by {
      forall x | k <= x < e ensures line[x] != '\n' { assert line[x] == value[x - k]; }
    }
    assert line[i] == key[0] && line[k] == value[0];
    SpaceEndAt(line, 1, i);
    WordCharEndAt(line, i, j);
    SpaceEndAt(line, j + 1, k);
    LineEndAt(line, k, e);
    HeaderMatchAt(line, i, j, k, e);
  }

  /** Any header whose value starts with a non-space matches with exactly
      its key and value, whatever whitespace surrounds the key and follows
      the colon. */
  lemma HeaderRoundTrip(line: string, ws1: string, key: string, ws2: string, value: string, rest: string)
    requires HeaderForm(line, ws1, key, ws2, value, rest)
    requires IsKey(key)
    requires value != [] && !IsSpace(value[0])
    requires forall i :: 0 <= i < |value| ==> value[i] != '\n'
    ensures HeaderMatch(line) == Some((key, value))
  {
    HeaderFormSlices(line, ws1, key, ws2, value, rest);
    var i := 1 + |ws1|;
    var j := i + |key|;
    var k := j + 1 + |ws2|;
    var e := k + |value|;
    assert e == |line| || line[e] == '\n' by {
      if e < |line| { assert line[e] == line[e..][0]; }
    }
    HeaderOfPieces(line, i, j, k, e, key, value);
  }

  /** Conversely, every match comes from a line of that form. Its value is
      one line long and starts with a non-space, unless it is the single
      whitespace character `\s*` had to give back. */
  /** The offsets of a successful match: the key is `line[i..j]`, the
      colon sits at `j`, the value is `line[m..e]`. */
  lemma HeaderMatchOffsets(line: string) returns (i: nat, j: nat, m: nat, e: nat)
    requires HeaderMatch(line).Some?
    ensures 1 <= i <= j < m <= e <= |line| && line[0] == '#' && line[j] == ':'
    ensures HeaderMatch(line).value == (line[i..j], line[m..e])
    ensures AllSpace(line[1..i]) && AllSpace(line[j + 1..m])
    ensures e == |line| || line[e] == '\n'
    ensures !IsSpace(line[m]) || e == m + 1
  {
    i := SpaceEnd(line, 1);
    j := WordCharEnd(line, i);
    var k := SpaceEnd(line, j + 1);
    m := ValueStart(line, j + 1, k);
    e := LineEnd(line, m);
    if m == k && k < |line| {
      assert !IsSpace(line[k]);
    }
  }

  lemma HeaderMatchForm(line: string)
    ensures HeaderMatch(line).Some? ==>
              var (key, value) := HeaderMatch(line).value;
              && IsKey(key)
              && value != [] && (!IsSpace(value[0]) || |value| == 1)
              && (forall i :: 0 <= i < |value| ==> value[i] != '\n')
              && exists ws1, ws2, rest :: HeaderForm(line, ws1, key, ws2, value, rest)
  {
    if HeaderMatch(line).Some? {
      var (key, value) := HeaderMatch(line).value;
      var i, j, m, e := HeaderMatchOffsets(line);
      assert value[0] == line[m];
      var ws1, ws2, rest := line[1..i], line[j + 1..m], line[e..];
      assert rest == [] || rest[0] == '\n';
      Reassemble(line, i, j, m, e);
      assert HeaderForm(line, ws1, key, ws2, value, rest);
    }
  }

  /** How `parse_diktat` classifies one line once it is stripped. */
  datatype LineKind =
    | Header(key: string, value: string)   // `# key: value`, key lower-cased
    | DroppedHeader                        // starts with `# ` but is no header
    | Sentence(text: string)
    | Blank

  function ParseLine(raw: string): LineKind
  {
    var line := Strip(raw);
    if StartsWith(line, "# ") then
      match HeaderMatch(line)
      case Some((key, value)) => Header(Lower(key), value)
      case None => DroppedHeader
    else if line != [] then Sentence(line)
    else Blank
  }

  /** The classification, stated against the stripped line. */
  lemma ParseLineCases(raw: string)
    ensures ParseLine(raw).Sentence? <==> Strip(raw) != [] && !StartsWith(Strip(raw), "# ")
    ensures ParseLine(raw).Sentence? ==> ParseLine(raw).text == Strip(raw)
    ensures ParseLine(raw).Header? || ParseLine(raw).DroppedHeader? <==> StartsWith(Strip(raw), "# ")
    ensures ParseLine(raw).Header? <==> StartsWith(Strip(raw), "# ") && HeaderMatch(Strip(raw)).Some?
    ensures ParseLine(raw).Header? ==>
              && ParseLine(raw).key == Lower(HeaderMatch(Strip(raw)).value.0)
              && ParseLine(raw).value == HeaderMatch(Strip(raw)).value.1
  {
  }

  /** A parsed dictation: the sentences in file order and the metadata. */
  datatype Parsed = Parsed(sentences: seq<string>, metadata: map<string, string>)

  /** One step of the loop over the lines. */
  function Step(d: Parsed, k: LineKind): Parsed
  {
    match k
    case Header(key, value) => d.(metadata := d.metadata[key := value])
    case Sentence(text) => d.(sentences := d.sentences + [text])
    case _ => d
  }

  /** A sentence as the parser keeps it: stripped, non-empty, not a header. */
  predicate IsSentence(s: string) {
    s != [] && Strip(s) == s && !StartsWith(s, "# ")
  }

  /** The loop of `parse_diktat` over the classified lines. */
  function Fold(ks: seq<LineKind>): Parsed
  {
    if ks == [] then Parsed([], map[]) else Step(Fold(ks[..|ks| - 1]), ks[|ks| - 1])
  }

  /** The classification of every line, in file order. */
  function Kinds(lines: seq<string>): (ks: seq<LineKind>)
    ensures |ks| == |lines|
    ensures forall i :: 0 <= i < |lines| ==> ks[i] == ParseLine(lines[i])
  {
    Seqs.Map(ParseLine, lines)
  }

  /** Classifying concatenated lines is classifying each part. */
  lemma KindsAppend(a: seq<string>, b: seq<string>)
    ensures Kinds(a + b) == Kinds(a) + Kinds(b)
  {
    Seqs.MapAppend(ParseLine, a, b);
  }

  /** `parse_diktat` over the lines of the file. */
  function ParseDiktat(lines: seq<string>): Parsed
  {
    Fold(Kinds(lines))
  }

  lemma {:induction false} FoldAppend(a: seq<LineKind>, b: seq<LineKind>)
    ensures Fold(a + b) == Parsed(Fold(a).sentences + Fold(b).sentences,
                                  Fold(a).metadata + Fold(b).metadata)
    decreases |b|
  {
    if b == [] {
      assert a + b == a;
      assert Fold(a).sentences + [] == Fold(a).sentences;
      assert Fold(a).metadata + map[] == Fold(a).metadata;
    } else {
      var b' := b[..|b| - 1];
      var last := b[|b| - 1];
      assert (a + b)[..|a + b| - 1] == a + b';
      assert (a + b)[|a + b| - 1] == last;
      FoldAppend(a, b');
      var pa, pb := Fold(a), Fold(b');
      match last
      case Header(key, value) =>
        assert (pa.metadata + pb.metadata)[key := value] == pa.metadata + pb.metadata[key := value];
      case Sentence(text) =>
        assert (pa.sentences + pb.sentences) + [text] == pa.sentences + (pb.sentences + [text]);
      case _ =>
    }
  }

  /** Parsing is line by line: the sentences of two parts of a file are
      concatenated and the metadata of the second part overrides the first. */
  lemma ParseAppend(a: seq<string>, b: seq<string>)
    ensures ParseDiktat(a + b)
         == Parsed(ParseDiktat(a).sentences + ParseDiktat(b).sentences,
                   ParseDiktat(a).metadata + ParseDiktat(b).metadata)
  {
    KindsAppend(a, b);
    FoldAppend(Kinds(a), Kinds(b));
  }

  /** What one classified line may contribute to a parsed dictation. */
  predicate KindOk(k: LineKind) {
    && (k.Sentence? ==> IsSentence(k.text))
    && (k.Header? ==> Lower(k.key) == k.key && k.value != [])
  }

  lemma LineKindOk(raw: string)
    ensures KindOk(ParseLine(raw))
  {
    var line := Strip(raw);
    if StartsWith(line, "# ") {
      match HeaderMatch(line)
      case Some(kv) => LowerIdempotent(kv.0);
      case None =>
    } else {
      StripIdempotent(raw);
    }
  }

  lemma {:induction false} FoldWellFormed(ks: seq<LineKind>)
    requires forall i :: 0 <= i < |ks| ==> KindOk(ks[i])
    ensures forall i :: 0 <= i < |Fold(ks).sentences| ==> IsSentence(Fold(ks).sentences[i])
    ensures forall k :: k in Fold(ks).metadata ==> Lower(k) == k && Fold(ks).metadata[k] != []
  {
    if ks != [] {
      FoldWellFormed(ks[..|ks| - 1]);
      assert KindOk(ks[|ks| - 1]);
    }
  }

  /** Every sentence is stripped, non-empty and not a header line; every
      metadata key is lower-case and every value non-empty. */
  lemma ParsedWellFormed(lines: seq<string>)
    ensures forall i :: 0 <= i < |ParseDiktat(lines).sentences| ==> IsSentence(ParseDiktat(lines).sentences[i])
    ensures forall k :: k in ParseDiktat(lines).metadata ==>
              Lower(k) == k && ParseDiktat(lines).metadata[k] != []
  {
    forall i | 0 <= i < |lines| ensures KindOk(Kinds(lines)[i]) {
      LineKindOk(lines[i]);
    }
    FoldWellFormed(Kinds(lines));
  }

  /** The sentences as a plain filter: each stripped line that is neither
      empty nor starts with `# `, in file order. */
  function KeptLines(lines: seq<string>): seq<string>
  {
    if lines == [] then []
    else
      var line := Strip(lines[0]);
      (if line != [] && !StartsWith(line, "# ") then [line] else []) + KeptLines(lines[1..])
  }

  lemma FoldOne(k: LineKind)
    ensures Fold([k]) == Step(Parsed([], map[]), k)
  {
    assert [k][..0] == [];
  }

  lemma KindsOne(line: string)
    ensures Kinds([line]) == [ParseLine(line)]
  {
    assert [line][1..] == [];
  }

  lemma SentencesOfOneLine(line: string)
    ensures ParseDiktat([line]).sentences
            == if Strip(line) != [] && !StartsWith(Strip(line), "# ") then [Strip(line)] else []
  {
    KindsOne(line);
    FoldOne(ParseLine(line));
    ParseLineCases(line);
  }

  lemma {:induction false} SentencesAreKeptLines(lines: seq<string>)
    ensures ParseDiktat(lines).sentences == KeptLines(lines)
  {
    if lines != [] {
      var line, rest := lines[0], lines[1..];
      SentencesAreKeptLines(rest);
      assert [line] + rest == lines;
      ParseAppend([line], rest);
      SentencesOfOneLine(line);
    }
  }

  lemma FoldSkip(ka: seq<LineKind>, k: LineKind, kb: seq<LineKind>)
    requires k.DroppedHeader? || k.Blank?
    ensures Fold(ka + [k] + kb) == Fold(ka + kb)
  {
    FoldAppend(ka + [k], kb);
    FoldAppend(ka, [k]);
    FoldAppend(ka, kb);
    FoldOne(k);
    var pa := Fold(ka);
    assert pa.sentences + [] == pa.sentences;
    assert pa.metadata + map[] == pa.metadata;
  }

  /** A line that starts with `# ` but does not match the header pattern
      leaves no trace. */
  lemma DroppedHeaderIgnored(a: seq<string>, line: string, b: seq<string>)
    requires ParseLine(line).DroppedHeader?
    ensures ParseDiktat(a + [line] + b) == ParseDiktat(a + b)
  {
    KindsAppend(a + [line], b);
    KindsAppend(a, [line]);
    KindsAppend(a, b);
    KindsOne(line);
    FoldSkip(Kinds(a), ParseLine(line), Kinds(b));
  }

  predicate HeaderOf(k: LineKind, key: string) {
    k.Header? && k.key == key
  }

  /** One step of the loop on one metadata key: a header for the key sets
      it, any other line leaves it as it was. */
  lemma StepMetadata(d: Parsed, k: LineKind, key: string)
    ensures key in Step(d, k).metadata <==> HeaderOf(k, key) || key in d.metadata
    ensures HeaderOf(k, key) ==> Step(d, k).metadata[key] == k.value
    ensures !HeaderOf(k, key) && key in d.metadata ==> Step(d, k).metadata[key] == d.metadata[key]
  {
  }

  lemma {:induction false} FoldHasHeader(ks: seq<LineKind>, key: string)
    ensures key in Fold(ks).metadata <==> exists i :: 0 <= i < |ks| && HeaderOf(ks[i], key)
  {
    if ks != [] {
      var n := |ks| - 1;
      var init := ks[..n];
      FoldHasHeader(init, key);
      assert Fold(ks) == Step(Fold(init), ks[n]);
      StepMetadata(Fold(init), ks[n], key);
      if exists i :: 0 <= i < |ks| && HeaderOf(ks[i], key) {
        var i :| 0 <= i < |ks| && HeaderOf(ks[i], key);
        if i < n { assert init[i] == ks[i]; }
      }
      if exists i :: 0 <= i < n && HeaderOf(init[i], key) {
        var i :| 0 <= i < n && HeaderOf(init[i], key);
        assert ks[i] == init[i];
      }
    }
  }

  lemma {:induction false} FoldLastValue(ks: seq<LineKind>, key: string)
    requires key in Fold(ks).metadata
    ensures exists i :: && 0 <= i < |ks|
                        && ks[i] == Header(key, Fold(ks).metadata[key])
                        && forall j :: i < j < |ks| ==> !HeaderOf(ks[j], key)
  {
    var n := |ks| - 1;
    var init := ks[..n];
    assert Fold(ks) == Step(Fold(init), ks[n]);
    StepMetadata(Fold(init), ks[n], key);
    if HeaderOf(ks[n], key) {
      assert ks[n] == Header(key, Fold(ks).metadata[key]);
    } else {
      FoldLastValue(init, key);
      var i :| && 0 <= i < n
               && init[i] == Header(key, Fold(init).metadata[key])
               && forall j :: i < j < n ==> !HeaderOf(init[j], key);
      assert ks[i] == init[i];
      forall j | i < j < |ks| ensures !HeaderOf(ks[j], key) {
        if j < n { assert ks[j] == init[j]; }
      }
    }
  }

  /** A metadata key is present exactly when some line is a header with that
      (lower-cased) key, and its value is the one of the last such line. */
  lemma FoldLastHeader(ks: seq<LineKind>, key: string)
    ensures key in Fold(ks).metadata <==> exists i :: 0 <= i < |ks| && HeaderOf(ks[i], key)
    ensures key in Fold(ks).metadata ==>
              exists i :: && 0 <= i < |ks|
                          && ks[i] == Header(key, Fold(ks).metadata[key])
                          && forall j :: i < j < |ks| ==> !HeaderOf(ks[j], key)
  {
    FoldHasHeader(ks, key);
    if key in Fold(ks).metadata {
      FoldLastValue(ks, key);
    }
  }

  /** A metadata key is present exactly when some line is a header with that
      (lower-cased) key; a later header with the same key overrides an earlier
      one, so the value is the one of the last such line. */
  lemma MetadataFromLastHeader(lines: seq<string>, key: string)
    ensures key in ParseDiktat(lines).metadata <==>
              exists i :: 0 <= i < |lines| && HeaderOf(ParseLine(lines[i]), key)
    ensures key in ParseDiktat(lines).metadata ==>
              exists i :: && 0 <= i < |lines|
                          && ParseLine(lines[i]) == Header(key, ParseDiktat(lines).metadata[key])
                          && forall j :: i < j < |lines| ==> !HeaderOf(ParseLine(lines[j]), key)
  {
    FoldLastHeader(Kinds(lines), key);
  }

  /** `get_diktate_metadata`: for each listed dictation, its metadata with
      the key `filename` set to the file name (overriding a header of that
      name). */
  function DiktateMetadata(names: seq<string>, read: string -> seq<string>): (r: seq<map<string, string>>)
    ensures |r| == |DiktateList(names)|
    ensures forall i :: 0 <= i < |r| ==>
              && "filename" in r[i] && r[i]["filename"] == DiktateList(names)[i]
              && r[i].Keys == ParseDiktat(read(DiktateList(names)[i])).metadata.Keys + {"filename"}
              && forall k :: k in r[i] && k != "filename" ==>
                   r[i][k] == ParseDiktat(read(DiktateList(names)[i])).metadata[k]
  {
    var files := DiktateList(names);
    seq(|files|, i requires 0 <= i < |files| =>
      ParseDiktat(read(files[i])).metadata["filename" := files[i]])
  }
}

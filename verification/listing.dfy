/** The index page: filtering the dictations by the request's search text and
    drop-down choices, the drop-down values, and the star rating shown for
    each listed dictation. */
module Listing {
  import opened Text
  import opened Outcomes
  import StrOrder
  import Seqs

  function Clamp(x: int, lo: int, hi: int): int
    requires lo <= hi
  {
    if x < lo then lo else if x > hi then hi else x
  }

  predicate IsDigit(c: char) {
    '0' <= c <= '9'
  }

  /** The digits of a Python integer literal: digits with single underscores
      between them. */
  predicate IsDigitBody(s: string) {
    && s != [] && IsDigit(s[0]) && IsDigit(s[|s| - 1])
    && (forall i :: 0 <= i < |s| ==> IsDigit(s[i]) || s[i] == '_')
    && (forall i :: 0 <= i < |s| - 1 ==> s[i] == '_' ==> s[i + 1] != '_')
  }

  function DigitValue(c: char): (d: nat)
    requires IsDigit(c)
    ensures d < 10
  {
    assert '0' as int <= c as int <= '9' as int;
    c as int - '0' as int
  }

  /** The value of a digit body, underscores ignored. */
  function DigitsValue(s: string): nat
  {
    if s == [] then 0
    else
      var init, c := s[..|s| - 1], s[|s| - 1];
      if c == '_' then DigitsValue(init)
      else if IsDigit(c) then 10 * DigitsValue(init) + DigitValue(c)
      else DigitsValue(init)
  }

  /** The number of ASCII digits in `s`. */
  function DigitCount(s: string): nat
  {
    if s == [] then 0
    else DigitCount(s[..|s| - 1]) + (if IsDigit(s[|s| - 1]) then 1 else 0)
  }

  /** CPython's default `sys.get_int_max_str_digits()` (from 3.11): `int()`
      of a decimal text with more digits than this raises ValueError, and so
      does `str()` of an integer that long. */
  const MaxStrDigits: nat := 4300

  /** Python's `int(s)` on a string, ASCII digits only: surrounding
      whitespace, an optional sign, digits with single underscores, at most
      `MaxStrDigits` digits. None is the `ValueError` case. */
  function ParseInt(s: string): Option<int>
  {
    var t := Strip(s);
    if t != [] && (t[0] == '+' || t[0] == '-') then
      if IsDigitBody(t[1..]) && DigitCount(t[1..]) <= MaxStrDigits then
        var n: int := DigitsValue(t[1..]);
        Some(if t[0] == '-' then -n else n)
      else None
    else if IsDigitBody(t) && DigitCount(t) <= MaxStrDigits then Some(DigitsValue(t))
    else None
  }

  function DigitChar(d: nat): char
    requires d < 10
  {
    ('0' as int + d) as char
  }

  function ShowNat(n: nat): (r: string)
    ensures r != [] && forall i :: 0 <= i < |r| ==> IsDigit(r[i])
  {
    if n < 10 then [DigitChar(n)] else ShowNat(n / 10) + [DigitChar(n % 10)]
  }

  /** Python's `str(n)` on an integer. */
  function ShowInt(n: int): string
  {
    if n < 0 then "-" + ShowNat(-n) else ShowNat(n)
  }

  lemma {:induction false} ShowNatValue(n: nat)
    ensures DigitsValue(ShowNat(n)) == n
  {
    var r := ShowNat(n);
    if n >= 10 {
      ShowNatValue(n / 10);
      assert r[..|r| - 1] == ShowNat(n / 10);
    }
  }

  lemma StripUnpadded(s: string)
    requires s != [] && !IsSpace(s[0]) && !IsSpace(s[|s| - 1])
    ensures Strip(s) == s
  {
  }

  lemma ShowNatBody(n: nat)
    ensures IsDigitBody(ShowNat(n))
  {
    var r := ShowNat(n);
    assert forall i :: 0 <= i < |r| ==> IsDigit(r[i]);
  }

  /** `int` of a digit body without a sign: its value, or ValueError past
      the digit limit. */
  lemma ParseDigits(digits: string)
    requires IsDigitBody(digits)
    ensures ParseInt(digits) ==
              if DigitCount(digits) <= MaxStrDigits then Some(DigitsValue(digits)) else None
  {
    assert IsDigit(digits[0]) && IsDigit(digits[|digits| - 1]);
    StripUnpadded(digits);
  }

  /** `int` of a minus sign followed by a digit body. */
  lemma ParseNegated(digits: string)
    requires IsDigitBody(digits)
    ensures ParseInt("-" + digits) ==
              if DigitCount(digits) <= MaxStrDigits then Some(-(DigitsValue(digits) as int)) else None
  {
    var t := "-" + digits;
    assert t[1..] == digits;
    assert Strip(t) == t by {
      assert IsDigit(digits[|digits| - 1]);
      assert t[|t| - 1] == digits[|digits| - 1];
      StripUnpadded(t);
    }
    assert t != [] && t[0] == '-';
  }

  function Abs(n: int): nat
  {
    if n < 0 then -n else n
  }

  /** The number of digits `str(n)` writes. */
  function NumDigits(n: int): nat
  {
    |ShowNat(Abs(n))|
  }

  lemma {:induction false} DigitCountOfDigits(s: string)
    requires forall i :: 0 <= i < |s| ==> IsDigit(s[i])
    ensures DigitCount(s) == |s|
  {
    if s != [] {
      DigitCountOfDigits(s[..|s| - 1]);
    }
  }

  /** `int(str(n)) == n` for every integer within the digit limit; past it
      `int` raises ValueError. */
  lemma ParseShowInt(n: int)
    ensures ParseInt(ShowInt(n)) == if NumDigits(n) <= MaxStrDigits then Some(n) else None
  {
    var m := Abs(n);
    ShowNatValue(m);
    ShowNatBody(m);
    DigitCountOfDigits(ShowNat(m));
    if n < 0 {
      ParseNegated(ShowNat(m));
    } else {
      ParseDigits(ShowNat(m));
    }
  }

  function Pow10(k: nat): (p: nat)
    ensures p >= 1
  {
    if k == 0 then 1 else 10 * Pow10(k - 1)
  }

  /** A text of `k` digits has a value below `10^k`. */
  lemma {:induction false} DigitsValueBound(s: string)
    ensures DigitsValue(s) < Pow10(DigitCount(s))
  {
    if s != [] {
      var init, c := s[..|s| - 1], s[|s| - 1];
      DigitsValueBound(init);
      if IsDigit(c) {
        assert DigitsValue(s) == 10 * DigitsValue(init) + DigitValue(c);
        assert DigitsValue(init) + 1 <= Pow10(DigitCount(init));
        assert 10 * (DigitsValue(init) + 1) <= 10 * Pow10(DigitCount(init));
      }
    }
  }

  /** A number below `10^k` is written with at most `k` digits. */
  lemma {:induction false} ShowNatLength(n: nat, k: nat)
    requires 1 <= k && n < Pow10(k)
    ensures |ShowNat(n)| <= k
  {
    if n >= 10 {
      assert n / 10 < Pow10(k - 1) by {
        assert n < 10 * Pow10(k - 1);
      }
      ShowNatLength(n / 10, k - 1);
    }
  }

  /** A digit body is written back with no more digits than it has. */
  lemma DigitBodyFitsStr(body: string)
    requires IsDigitBody(body)
    ensures 1 <= DigitCount(body)
    ensures |ShowNat(DigitsValue(body))| <= DigitCount(body)
  {
    assert IsDigit(body[|body| - 1]);
    DigitsValueBound(body);
    ShowNatLength(DigitsValue(body), DigitCount(body));
  }

  /** One radio input of the star widget, named after the rating. */
  datatype Star = Star(name: string, checked: bool)

  function CountChecked(stars: seq<Star>): nat
  {
    if stars == [] then 0 else (if stars[0].checked then 1 else 0) + CountChecked(stars[1..])
  }

  const StarCount: nat := 5

  /** `render_stars(rating)`: five inputs named after the rating; the first
      `rating` of them (none below 1, all five from 5 up) are checked. */
  function RenderStars(rating: int): (r: seq<Star>)
    ensures |r| == StarCount
    ensures forall i :: 0 <= i < |r| ==> r[i].name == "rating-" + ShowInt(rating)
    ensures forall i :: 0 <= i < |r| ==> (r[i].checked <==> i < Clamp(rating, 0, StarCount))
    ensures CountChecked(r) == Clamp(rating, 0, StarCount)
  {
    var name := "rating-" + ShowInt(rating);
    var r := seq(StarCount, i requires 0 <= i < StarCount => Star(name, i + 1 <= rating));
    CheckedPrefix(r, Clamp(rating, 0, StarCount));
    r
  }

  lemma {:induction false} CheckedPrefix(stars: seq<Star>, k: nat)
    requires k <= |stars|
    requires forall i :: 0 <= i < |stars| ==> (stars[i].checked <==> i < k)
    ensures CountChecked(stars) == k
  {
    if stars != [] {
      CheckedPrefix(stars[1..], if k == 0 then 0 else k - 1);
    }
  }

  /** The value of `d.get(key, '')`. */
  function GetStr(d: map<string, string>, key: string): string
  {
    if key in d then d[key] else ""
  }

  /** `int(diktat.get('schwierigkeit', 1))`, falling back to 1 when the value
      is not an integer. */
  function RatingOf(d: map<string, string>): (r: int)
    ensures "schwierigkeit" !in d ==> r == 1
    ensures "schwierigkeit" in d && ParseInt(d["schwierigkeit"]).None? ==> r == 1
    ensures "schwierigkeit" in d && ParseInt(d["schwierigkeit"]).Some? ==>
              r == ParseInt(d["schwierigkeit"]).value
  {
    if "schwierigkeit" !in d then 1
    else match ParseInt(d["schwierigkeit"])
      case Some(n) => n
      case None => 1
  }

  /** A difficulty written as `str(n)` is read back as `n`, unless it has
      more digits than `int` accepts, when the rating falls back to 1. */
  lemma RatingOfShown(d: map<string, string>, n: int)
    requires "schwierigkeit" in d && d["schwierigkeit"] == ShowInt(n)
    ensures RatingOf(d) == if NumDigits(n) <= MaxStrDigits then n else 1
  {
    ParseShowInt(n);
  }

  /** Whatever the difficulty text, `str(rating)` in `render_stars` stays
      within the digit limit, so it never raises. */
  lemma RatingFitsStr(d: map<string, string>)
    ensures NumDigits(RatingOf(d)) <= MaxStrDigits
  {
    if "schwierigkeit" in d && ParseInt(d["schwierigkeit"]).Some? {
      var t := Strip(d["schwierigkeit"]);
      if t != [] && (t[0] == '+' || t[0] == '-') {
        DigitBodyFitsStr(t[1..]);
      } else {
        DigitBodyFitsStr(t);
      }
    } else {
      assert NumDigits(1) == |ShowNat(1)| == 1;
    }
  }

  /** The request arguments of the index page, `''` when absent. */
  datatype Filters = Filters(search: string, thema: string, uebung: string, schwierigkeit: string)

  const NoFilters := Filters("", "", "", "")

  /** The search text as the page uses it: stripped. */
  function SearchQuery(f: Filters): string
  {
    Strip(f.search)
  }

  /** The search text, lower-cased, occurs in the lower-cased title or
      description. */
  predicate SearchHit(d: map<string, string>, query: string) {
    Contains(Lower(GetStr(d, "titel")), Lower(query))
    || Contains(Lower(GetStr(d, "beschreibung")), Lower(query))
  }

  /** The four skip tests of the index loop, each failing for an empty
      argument. */
  predicate Kept(d: map<string, string>, f: Filters) {
    && (SearchQuery(f) == "" || SearchHit(d, SearchQuery(f)))
    && (f.thema == "" || f.thema == GetStr(d, "thema"))
    && (f.uebung == "" || f.uebung == GetStr(d, "übung"))
    && (f.schwierigkeit == "" || f.schwierigkeit == GetStr(d, "schwierigkeit"))
  }

  /** A listed dictation with its star widget. */
  datatype Listed = Listed(meta: map<string, string>, stars: seq<Star>)

  function Metas(ls: seq<Listed>): (ms: seq<map<string, string>>)
    ensures |ms| == |ls|
    ensures forall i :: 0 <= i < |ls| ==> ms[i] == ls[i].meta
  {
    seq(|ls|, i requires 0 <= i < |ls| => ls[i].meta)
  }

  /** A dictation as listed: its metadata and the stars of its rating. */
  function ListEntry(d: map<string, string>): Listed
  {
    Listed(d, RenderStars(RatingOf(d)))
  }

  /** The filter loop of `index`: the dictations passing the four tests, in
      order, each with its stars. */
  function FilterDiktate(all: seq<map<string, string>>, f: Filters): (r: seq<Listed>)
    ensures Seqs.IsSubseq(Metas(r), all)
    ensures forall i :: 0 <= i < |r| ==> Kept(r[i].meta, f) && r[i] == ListEntry(r[i].meta)
    ensures forall d :: d in all && Kept(d, f) ==> d in Metas(r)
  {
    var kept := Seqs.Filter(d => Kept(d, f), all);
    var r := seq(|kept|, i requires 0 <= i < |kept| => ListEntry(kept[i]));
    assert Metas(r) == kept;
    r
  }

  lemma NoFiltersKeep(d: map<string, string>)
    ensures Kept(d, NoFilters)
  {
    assert TrimLeft("") == "";
    assert Strip("") == "";
  }

  /** With no search text and no drop-down choice every dictation is
      listed, in order. */
  lemma NoFiltersListAll(all: seq<map<string, string>>)
    ensures Metas(FilterDiktate(all, NoFilters)) == all
  {
    forall i | 0 <= i < |all| ensures Kept(all[i], NoFilters) {
      NoFiltersKeep(all[i]);
    }
    Seqs.FilterAll(d => Kept(d, NoFilters), all);
  }

  /** The non-empty values of one metadata key, in listing order. */
  function FieldValues(all: seq<map<string, string>>, key: string): (vs: seq<string>)
    ensures forall v :: v in vs <==> v != "" && exists d :: d in all && GetStr(d, key) == v
  {
    if all == [] then []
    else
      var rest := FieldValues(all[1..], key);
      var v := GetStr(all[0], key);
      assert forall d :: d in all <==> d == all[0] || d in all[1..];
      (if v != "" then [v] else []) + rest
  }

  /** `sorted(set(d.get(key, '') for d in all if d.get(key)))`: each
      non-empty value of the key once, in ascending order. */
  function Dropdown(all: seq<map<string, string>>, key: string): (r: seq<string>)
    ensures StrOrder.StrictlySorted(r)
    ensures forall v :: v in r <==> v != "" && exists d :: d in all && GetStr(d, key) == v
  {
    StrOrder.SortUnique(FieldValues(all, key))
  }

  /** What the index page shows. */
  datatype IndexPage = IndexPage(
    diktate: seq<Listed>,
    themen: seq<string>,
    uebungen: seq<string>,
    schwierigkeiten: seq<string>,
    searchQuery: string)

  /** `index`: the dictations passing the filters, in listing order and
      each with the stars of its difficulty; the drop-down lists offer each
      non-empty value of all dictations once, sorted; the search text is
      shown stripped. */
  function Index(all: seq<map<string, string>>, f: Filters): (p: IndexPage)
    ensures Seqs.IsSubseq(Metas(p.diktate), all)
    ensures forall i :: 0 <= i < |p.diktate| ==>
              && Kept(p.diktate[i].meta, f)
              && p.diktate[i].stars == RenderStars(RatingOf(p.diktate[i].meta))
    ensures forall d :: d in all && Kept(d, f) ==> d in Metas(p.diktate)
    ensures StrOrder.StrictlySorted(p.themen)
    ensures forall v :: v in p.themen <==> v != "" && exists d :: d in all && GetStr(d, "thema") == v
    ensures StrOrder.StrictlySorted(p.uebungen)
    ensures forall v :: v in p.uebungen <==> v != "" && exists d :: d in all && GetStr(d, "übung") == v
    ensures StrOrder.StrictlySorted(p.schwierigkeiten)
    ensures forall v :: v in p.schwierigkeiten <==>
              v != "" && exists d :: d in all && GetStr(d, "schwierigkeit") == v
    ensures p.searchQuery == Strip(f.search)
  {
    var ds := FilterDiktate(all, f);
    assert forall i :: 0 <= i < |ds| ==> ds[i].stars == RenderStars(RatingOf(ds[i].meta));
    var themen, uebungen, schwierigkeiten :=
      Dropdown(all, "thema"), Dropdown(all, "übung"), Dropdown(all, "schwierigkeit");
    IndexPage(ds, themen, uebungen, schwierigkeiten, SearchQuery(f))
  }
}

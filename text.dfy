/** The text handling the handlers apply to scraped cell text: Python's
    `str.strip()`, the case-insensitive "total" test of the import and
    export tables, and the normalization of Brazilian-formatted quantities
    (`.replace('.', '').replace(',', '.')`). */
module Text {

  /** Python's `str.isspace()`: the characters `str.strip()` removes. */
  predicate IsSpace(c: char) {
    ('\t' <= c <= '\r') || ('\U{1C}' <= c <= ' ') || c == '\U{85}' || c == '\U{A0}'
    || c == '\U{1680}' || ('\U{2000}' <= c <= '\U{200A}') || c == '\U{2028}'
    || c == '\U{2029}' || c == '\U{202F}' || c == '\U{205F}' || c == '\U{3000}'
  }

  /** The suffix of `s` left after dropping its leading characters of the
      class `space`: `s.lstrip()` when `space` is IsSpace. */
  function TrimStart(s: string, space: char -> bool): (r: string)
    ensures |r| <= |s| && r == s[|s| - |r|..]
    ensures forall k :: 0 <= k < |s| - |r| ==> space(s[k])
    ensures r == [] || !space(r[0])
  {
    if s != [] && space(s[0]) then
      var r := TrimStart(s[1..], space);
      assert forall k :: 1 <= k < |s| - |r| ==> s[k] == s[1..][k - 1];
      r
    else s
  }

  /** The prefix of `s` left after dropping its trailing characters of the
      class `space`: `s.rstrip()` when `space` is IsSpace. */
  function TrimEnd(s: string, space: char -> bool): (r: string)
    ensures |r| <= |s| && r == s[..|r|]
    ensures forall k :: |r| <= k < |s| ==> space(s[k])
    ensures r == [] || !space(r[|r| - 1])
  {
    if s != [] && space(s[|s| - 1]) then
      var r := TrimEnd(s[..|s| - 1], space);
      assert forall k :: |r| <= k < |s| - 1 ==> s[k] == s[..|s| - 1][k];
      r
    else s
  }

  /** `s` without its surrounding characters of the class `space`. */
  function StripBy(s: string, space: char -> bool): (r: string)
    ensures r == [] || (!space(r[0]) && !space(r[|r| - 1]))
    ensures r == [] <==> forall k :: 0 <= k < |s| ==> space(s[k])
  {
    TrimEnd(TrimStart(s, space), space)
  }

  /** Every character of `s` is of the class `space`. */
  predicate AllOf(s: string, space: char -> bool) {
    forall k :: 0 <= k < |s| ==> space(s[k])
  }

  /** A character kept by StripBy sits in the stripped text at its offset
      past the dropped prefix. */
  lemma StripByKeeps(s: string, space: char -> bool, k: nat)
    requires k < |s| && !space(s[k])
    ensures var a := |s| - |TrimStart(s, space)|;
            a <= k < a + |StripBy(s, space)| && StripBy(s, space)[k - a] == s[k]
  {
    var u := TrimStart(s, space);
    var a := |s| - |u|;
    assert u[k - a] == s[k];
  }

  /** Stripping removes exactly the surrounding characters of the class:
      whatever is wrapped in them and neither starts nor ends with one comes
      back unchanged. */
  lemma {:induction false} StripByUnwraps(lead: string, core: string, trail: string, space: char -> bool)
    requires AllOf(lead, space) && AllOf(trail, space)
    requires core == [] || (!space(core[0]) && !space(core[|core| - 1]))
    ensures StripBy(lead + core + trail, space) == core
  {
    if core == [] {
      assert lead + core + trail == lead + trail;
      assert AllOf(lead + trail, space) by {
        forall k | 0 <= k < |lead + trail| ensures space((lead + trail)[k]) {
          if k >= |lead| { assert (lead + trail)[k] == trail[k - |lead|]; }
        }
      }
    } else {
      assert lead + core + trail == lead + (core + trail);
      assert (core + trail)[0] == core[0];
      TrimStartUnwraps(lead, core + trail, space);
      TrimEndUnwraps(core, trail, space);
    }
  }

  lemma {:induction false} TrimStartUnwraps(lead: string, rest: string, space: char -> bool)
    requires AllOf(lead, space)
    requires rest == [] || !space(rest[0])
    ensures TrimStart(lead + rest, space) == rest
  {
    if lead != [] {
      assert (lead + rest)[1..] == lead[1..] + rest;
      TrimStartUnwraps(lead[1..], rest, space);
    } else {
      assert lead + rest == rest;
    }
  }

  lemma {:induction false} TrimEndUnwraps(core: string, trail: string, space: char -> bool)
    requires AllOf(trail, space)
    requires core == [] || !space(core[|core| - 1])
    ensures TrimEnd(core + trail, space) == core
    decreases |trail|
  {
    if trail != [] {
      assert (core + trail)[..|core + trail| - 1] == core + trail[..|trail| - 1];
      TrimEndUnwraps(core, trail[..|trail| - 1], space);
    } else {
      assert core + trail == core;
    }
  }

  /** `s.strip()`. */
  function Strip(s: string): (r: string)
    ensures r == [] || (!IsSpace(r[0]) && !IsSpace(r[|r| - 1]))
    ensures r == [] <==> forall k :: 0 <= k < |s| ==> IsSpace(s[k])
  {
    StripBy(s, IsSpace)
  }

  predicate AllSpace(s: string) {
    forall k :: 0 <= k < |s| ==> IsSpace(s[k])
  }

  /** `str.strip()` removes exactly the surrounding whitespace. */
  lemma StripUnwraps(lead: string, core: string, trail: string)
    requires AllSpace(lead) && AllSpace(trail)
    requires core == [] || (!IsSpace(core[0]) && !IsSpace(core[|core| - 1]))
    ensures Strip(lead + core + trail) == core
  {
    StripByUnwraps(lead, core, trail, IsSpace);
  }

  /** Python's `str.lower()` restricted to ASCII letters; every other
      character is kept. */
  function AsciiLower(c: char): char {
    if 'A' <= c <= 'Z' then (c as int + 32) as char else c
  }

  /** The test `pais.strip().lower() == "total"` of the import and export
      sub-option tables. ASCII lowering decides it exactly: no character
      outside ASCII lowercases to a string made of 't', 'o', 'a' and 'l'. */
  predicate IsTotalLabel(s: string) {
    var t := Strip(s);
    |t| == 5 && forall i :: 0 <= i < 5 ==> AsciiLower(t[i]) == "total"[i]
  }

  /** Any capitalisation of "total" wrapped in whitespace is a total row. */
  lemma TotalLabelIgnoresCaseAndSpace(lead: string, word: string, trail: string)
    requires AllSpace(lead) && AllSpace(trail)
    requires |word| == 5 && forall i :: 0 <= i < 5 ==> AsciiLower(word[i]) == "total"[i]
    ensures IsTotalLabel(lead + word + trail)
  {
    assert !IsSpace(word[0]) && !IsSpace(word[4]) by {
      assert AsciiLower(word[0]) == 't' && AsciiLower(word[4]) == 'l';
    }
    StripUnwraps(lead, word, trail);
  }

  /** Number of occurrences of `c` in `s`. */
  function Count(s: string, c: char): nat {
    if s == [] then 0 else (if s[0] == c then 1 else 0) + Count(s[1..], c)
  }

  /** Python's `s.replace(pat, rep)` for a one-character pattern. */
  function Replace(s: string, pat: char, rep: string): string {
    if s == [] then [] else (if s[0] == pat then rep else [s[0]]) + Replace(s[1..], pat, rep)
  }

  /** `text.replace('.', '').replace(',', '.')`: thousands separators dropped,
      the decimal comma turned into a decimal point. */
  function Normalize(text: string): string {
    Replace(Replace(text, '.', ""), ',', ".")
  }

  /** The placeholders the upstream pages use for "not reported". */
  predicate IsMissing(t: string) {
    t == "-" || t == ""
  }

  lemma {:induction false} ReplaceAppend(a: string, b: string, pat: char, rep: string)
    ensures Replace(a + b, pat, rep) == Replace(a, pat, rep) + Replace(b, pat, rep)
  {
    if a == [] {
      assert a + b == b;
    } else {
      assert (a + b)[0] == a[0];
      assert (a + b)[1..] == a[1..] + b;
      ReplaceAppend(a[1..], b, pat, rep);
    }
  }

  lemma {:induction false} CountAppend(a: string, b: string, c: char)
    ensures Count(a + b, c) == Count(a, c) + Count(b, c)
  {
    if a == [] {
      assert a + b == b;
    } else {
      assert (a + b)[0] == a[0];
      assert (a + b)[1..] == a[1..] + b;
      CountAppend(a[1..], b, c);
    }
  }

  /** Normalization works character by character. */
  lemma NormalizeAppend(a: string, b: string)
    ensures Normalize(a + b) == Normalize(a) + Normalize(b)
  {
    ReplaceAppend(a, b, '.', "");
    ReplaceAppend(Replace(a, '.', ""), Replace(b, '.', ""), ',', ".");
  }

  /** What normalization does to one character. */
  function NormalizedChar(c: char): string {
    if c == '.' then "" else if c == ',' then "." else [c]
  }

  lemma NormalizeCons(c: char, s: string)
    ensures Normalize([c] + s) == NormalizedChar(c) + Normalize(s)
  {
    NormalizeAppend([c], s);
    assert Replace([c], '.', "") == if c == '.' then "" else [c] by {
      assert [c][1..] == [];
    }
    if c != '.' {
      assert Replace([c], ',', ".") == if c == ',' then "." else [c] by {
        assert [c][1..] == [];
      }
    }
  }

  /** The normalized text holds no comma, as many points as the input had
      commas, every other character as often as the input did, and is
      shorter than the input by the number of points the input held. */
  lemma {:induction false} NormalizeCounts(s: string)
    ensures Count(Normalize(s), ',') == 0
    ensures Count(Normalize(s), '.') == Count(s, ',')
    ensures |Normalize(s)| == |s| - Count(s, '.')
    ensures forall c :: c != '.' && c != ',' ==> Count(Normalize(s), c) == Count(s, c)
  {
    if s != [] {
      assert s == [s[0]] + s[1..];
      NormalizeCons(s[0], s[1..]);
      NormalizeCounts(s[1..]);
      forall c
        ensures Count(Normalize(s), c) == Count(NormalizedChar(s[0]), c) + Count(Normalize(s[1..]), c)
      {
        CountAppend(NormalizedChar(s[0]), Normalize(s[1..]), c);
      }
    }
  }

  /** The normalized text is empty exactly when the input is made of points
      only, so such a cell reads as "not reported". */
  lemma {:induction false} NormalizeEmptyIffOnlyPoints(s: string)
    ensures Normalize(s) == "" <==> forall i :: 0 <= i < |s| ==> s[i] == '.'
  {
    NormalizeCounts(s);
    OnlyPointsIffCountIsLength(s);
  }

  lemma {:induction false} OnlyPointsIffCountIsLength(s: string)
    ensures Count(s, '.') == |s| <==> forall i :: 0 <= i < |s| ==> s[i] == '.'
  {
    if s != [] {
      OnlyPointsIffCountIsLength(s[1..]);
      CountAtMostLength(s[1..], '.');
      if forall i :: 0 <= i < |s| ==> s[i] == '.' {
        assert forall i :: 0 <= i < |s[1..]| ==> s[1..][i] == '.' by {
          forall i | 0 <= i < |s[1..]| ensures s[1..][i] == '.' { assert s[1..][i] == s[i + 1]; }
        }
      }
      if Count(s, '.') == |s| {
        forall i | 0 <= i < |s| ensures s[i] == '.' {
          if i > 0 { assert s[i] == s[1..][i - 1]; }
        }
      }
    }
  }

  lemma {:induction false} CountAtMostLength(s: string, c: char)
    ensures Count(s, c) <= |s|
  {
    if s != [] { CountAtMostLength(s[1..], c); }
  }

  /** Text without separators. */
  predicate IsPlain(s: string) {
    '.' !in s && ',' !in s
  }

  lemma {:induction false} NormalizePlain(s: string)
    requires IsPlain(s)
    ensures Normalize(s) == s
  {
    if s != [] {
      assert s == [s[0]] + s[1..];
      assert IsPlain(s[1..]) by {
        forall c | c in s[1..] ensures c in s { }
      }
      NormalizeCons(s[0], s[1..]);
      NormalizePlain(s[1..]);
    }
  }

  /** Digit groups joined with the thousands separator, as in "1.234.567". */
  function JoinGroups(groups: seq<string>): string {
    if |groups| == 0 then ""
    else if |groups| == 1 then groups[0]
    else groups[0] + "." + JoinGroups(groups[1..])
  }

  function Concat(groups: seq<string>): string {
    if |groups| == 0 then "" else groups[0] + Concat(groups[1..])
  }

  /** A quantity written with thousands separators normalizes to its digits. */
  lemma {:induction false} NormalizeThousands(groups: seq<string>)
    requires forall i :: 0 <= i < |groups| ==> IsPlain(groups[i])
    ensures Normalize(JoinGroups(groups)) == Concat(groups)
  {
    if |groups| == 1 {
      NormalizePlain(groups[0]);
      assert Concat(groups[1..]) == "";
    } else if |groups| > 1 {
      NormalizeAppend(groups[0] + ".", JoinGroups(groups[1..]));
      NormalizeAppend(groups[0], ".");
      NormalizePlain(groups[0]);
      NormalizeCons('.', "");
      assert "." == ['.'] + "";
      NormalizeThousands(groups[1..]);
    }
  }

  /** A Brazilian decimal such as "1.234,5" normalizes to "1234.5", the form
      a float parser reads. */
  lemma NormalizeDecimalComma(groups: seq<string>, fraction: string)
    requires forall i :: 0 <= i < |groups| ==> IsPlain(groups[i])
    requires IsPlain(fraction)
    ensures Normalize(JoinGroups(groups) + "," + fraction) == Concat(groups) + "." + fraction
  {
    var digits := JoinGroups(groups);
    assert Normalize(",") == "." by {
      NormalizeCons(',', "");
      assert [','] + "" == ",";
    }
    calc {
      Normalize(digits + "," + fraction);
      { NormalizeAppend(digits + ",", fraction); }
      Normalize(digits + ",") + Normalize(fraction);
      { NormalizeAppend(digits, ","); }
      Normalize(digits) + "." + Normalize(fraction);
      { NormalizeThousands(groups); NormalizePlain(fraction); }
      Concat(groups) + "." + fraction;
    }
  }
}

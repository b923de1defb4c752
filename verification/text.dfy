/** The string primitives the services lean on, with Python's semantics:
    `str.strip()`, `str.lower()`, the `\s+` collapse of header normalisation,
    `int()` on text, `pathlib` suffix/stem and code-point string order. */
module Text {
  import opened Common

  /** `str.isspace()`: the characters `strip()`, the regex class `\s` and
      `int()` all treat as whitespace. */
  predicate IsSpace(c: char) {
    || c == ' '
    || ('\t' <= c <= '\r')
    || ('\U{1c}' <= c <= '\U{1f}')
    || c == '\U{85}' || c == '\U{a0}' || c == '\U{1680}'
    || ('\U{2000}' <= c <= '\U{200a}')
    || c == '\U{2028}' || c == '\U{2029}' || c == '\U{202f}' || c == '\U{205f}' || c == '\U{3000}'
  }

  predicate AllSpace(s: string) {
    forall i :: 0 <= i < |s| ==> IsSpace(s[i])
  }

  /** The number of whitespace characters `s` starts with. */
  function LeadingSpace(s: string): (n: nat)
    ensures n <= |s|
    ensures forall k :: 0 <= k < n ==> IsSpace(s[k])
    ensures n == |s| || !IsSpace(s[n])
  {
    if |s| > 0 && IsSpace(s[0]) then 1 + LeadingSpace(s[1..]) else 0
  }

  /** The number of whitespace characters `s` ends with. */
  function TrailingSpace(s: string): (n: nat)
    ensures n <= |s|
    ensures forall k :: |s| - n <= k < |s| ==> IsSpace(s[k])
    ensures n == |s| || !IsSpace(s[|s| - n - 1])
  {
    if |s| > 0 && IsSpace(s[|s| - 1]) then 1 + TrailingSpace(s[..|s| - 1]) else 0
  }

  /** `str.lstrip()`: the longest suffix that does not start with whitespace. */
  function StripLeft(s: string): (r: string)
    ensures |r| <= |s| && r == s[|s| - |r|..]
    ensures AllSpace(s[..|s| - |r|])
    ensures r == [] || !IsSpace(r[0])
  {
    s[LeadingSpace(s)..]
  }

  /** `str.rstrip()`: the longest prefix that does not end with whitespace. */
  function StripRight(s: string): (r: string)
    ensures |r| <= |s| && r == s[..|r|]
    ensures AllSpace(s[|r|..])
    ensures r == [] || !IsSpace(r[|r| - 1])
  {
    s[..|s| - TrailingSpace(s)]
  }

  /** `str.strip()`: `s` without its leading and trailing whitespace. */
  function Strip(s: string): (r: string)
    ensures |r| <= |s|
    ensures r == [] || (!IsSpace(r[0]) && !IsSpace(r[|r| - 1]))
  {
    StripRight(StripLeft(s))
  }

  /** Text is blank exactly when it strips to nothing. */
  lemma StripEmptyIffBlank(s: string)
    ensures Strip(s) == [] <==> AllSpace(s)
  {
    if AllSpace(s) {
      BlankStripsLeftToNothing(s);
    }
    if Strip(s) == [] {
      NothingLeftIsBlank(s);
    }
  }

  lemma BlankStripsLeftToNothing(s: string)
    requires AllSpace(s)
    ensures StripLeft(s) == []
  {
  }

  lemma NothingLeftIsBlank(s: string)
    requires Strip(s) == []
    ensures AllSpace(s)
  {
    var l := StripLeft(s);
    assert l[|StripRight(l)|..] == l;
    assert l == [];
    assert s[..|s| - |l|] == s;
  }

  /** Text that already has no whitespace at either end is its own strip. */
  lemma StripOfTrimmed(s: string)
    requires s == [] || (!IsSpace(s[0]) && !IsSpace(s[|s| - 1]))
    ensures Strip(s) == s
  {
  }

  /** `str.strip()` is idempotent. */
  lemma StripIdempotent(s: string)
    ensures Strip(Strip(s)) == Strip(s)
  {
    StripOfTrimmed(Strip(s));
  }

  function LowerChar(c: char): char {
    if 'A' <= c <= 'Z' then (c as int + 32) as char else c
  }

  /** `str.lower()` on ASCII letters. */
  function Lower(s: string): (r: string)
    ensures |r| == |s|
    ensures forall i :: 0 <= i < |s| ==> r[i] == LowerChar(s[i])
  {
    seq(|s|, i requires 0 <= i < |s| => LowerChar(s[i]))
  }

  /** `re.sub(r"\s+", " ", s)`: every maximal run of whitespace becomes one space. */
  function CollapseSpaces(s: string): string
  {
    if |s| == 0 then ""
    else if IsSpace(s[0]) then " " + CollapseSpaces(StripLeft(s[1..]))
    else [s[0]] + CollapseSpaces(s[1..])
  }

  /** No upper-case letter, no whitespace but the plain space, no two spaces
      in a row and no space at either end: the shape of a normalised header. */
  predicate IsNormalHeader(s: string) {
    && NoUpper(s)
    && (forall i :: 0 <= i < |s| ==> IsSpace(s[i]) ==> s[i] == ' ')
    && SingleSpaced(s)
    && (|s| > 0 ==> s[0] != ' ' && s[|s| - 1] != ' ')
  }

  /** The collapse keeps the first character unless it is whitespace, which
      becomes a space. */
  lemma CollapseFirst(s: string)
    requires |s| > 0
    ensures |CollapseSpaces(s)| > 0
    ensures CollapseSpaces(s)[0] == (if IsSpace(s[0]) then ' ' else s[0])
  {
  }

  /** The collapse ends with a space exactly when the text ends with whitespace. */
  lemma {:induction false} CollapseLast(s: string)
    requires |s| > 0
    decreases |s|, 1
    ensures |CollapseSpaces(s)| > 0
    ensures CollapseSpaces(s)[|CollapseSpaces(s)| - 1] == ' ' <==> IsSpace(s[|s| - 1])
  {
    if IsSpace(s[0]) {
      CollapseLastAfterSpace(s);
    } else {
      LastOfCons(s[0], CollapseSpaces(s[1..]));
      if |s| > 1 {
        CollapseLast(s[1..]);
        assert s[1..][|s| - 2] == s[|s| - 1];
      }
    }
  }

  lemma {:induction false} CollapseLastAfterSpace(s: string)
    requires |s| > 0 && IsSpace(s[0])
    ensures CollapseSpaces(s)[|CollapseSpaces(s)| - 1] == ' ' <==> IsSpace(s[|s| - 1])
    decreases |s|, 0
  {
    var t := StripLeft(s[1..]);
    LastOfCons(' ', CollapseSpaces(t));
    if |s| > 1 {
      StripLeftKeepsLast(s[1..]);
      assert s[1..][|s| - 2] == s[|s| - 1];
    }
    if |t| > 0 {
      CollapseLast(t);
    }
  }

  lemma LastOfCons<T>(h: T, c: seq<T>)
    ensures ([h] + c)[|c|] == if |c| > 0 then c[|c| - 1] else h
  {
  }

  /** Stripping the left keeps the last character, unless nothing is left,
      in which case that character was whitespace. */
  lemma StripLeftKeepsLast(s: string)
    requires |s| > 0
    ensures StripLeft(s) == [] ==> IsSpace(s[|s| - 1])
    ensures |StripLeft(s)| > 0 ==> StripLeft(s)[|StripLeft(s)| - 1] == s[|s| - 1]
  {
    var r := StripLeft(s);
    if r == [] {
      assert s[..|s|] == s;
    } else {
      assert r[|r| - 1] == s[|s| - |r|..][|r| - 1];
    }
  }

  /** Text without whitespace at its ends collapses to text without a space at its ends. */
  lemma CollapseEnds(s: string)
    requires s == [] || (!IsSpace(s[0]) && !IsSpace(s[|s| - 1]))
    ensures var c := CollapseSpaces(s); c == [] || (c[0] != ' ' && c[|c| - 1] != ' ')
  {
    if |s| > 0 {
      CollapseFirst(s);
      CollapseLast(s);
    }
  }

  /** The only whitespace the collapse leaves is the plain space. */
  lemma {:induction false} CollapsePlainSpaces(s: string)
    ensures forall i :: 0 <= i < |CollapseSpaces(s)| ==> IsSpace(CollapseSpaces(s)[i]) ==> CollapseSpaces(s)[i] == ' '
  {
    if |s| > 0 {
      var head := if IsSpace(s[0]) then ' ' else s[0];
      var t := if IsSpace(s[0]) then StripLeft(s[1..]) else s[1..];
      CollapsePlainSpaces(t);
      assert CollapseSpaces(s) == [head] + CollapseSpaces(t);
      PrependKeeps(head, CollapseSpaces(t));
    }
  }

  lemma PrependKeeps(h: char, c: string)
    requires IsSpace(h) ==> h == ' '
    requires forall i :: 0 <= i < |c| ==> IsSpace(c[i]) ==> c[i] == ' '
    ensures forall i :: 0 <= i < |[h] + c| ==> IsSpace(([h] + c)[i]) ==> ([h] + c)[i] == ' '
  {
    forall i | 0 <= i < |[h] + c|
      ensures IsSpace(([h] + c)[i]) ==> ([h] + c)[i] == ' '
    {
      if i > 0 {
        assert ([h] + c)[i] == c[i - 1];
      }
    }
  }

  /** The collapse never leaves two spaces in a row. */
  lemma {:induction false} CollapseSingleSpaces(s: string)
    ensures SingleSpaced(CollapseSpaces(s))
  {
    if |s| > 0 {
      var t := if IsSpace(s[0]) then StripLeft(s[1..]) else s[1..];
      CollapseSingleSpaces(t);
      if IsSpace(s[0]) {
        assert CollapseSpaces(s) == [' '] + CollapseSpaces(t);
        if |t| > 0 {
          CollapseFirst(t);
        }
        ConsSingleSpaced(' ', CollapseSpaces(t));
      } else {
        assert CollapseSpaces(s) == [s[0]] + CollapseSpaces(t);
        ConsSingleSpaced(s[0], CollapseSpaces(t));
      }
    }
  }

  /** No two spaces in a row. */
  predicate SingleSpaced(s: string) {
    forall i :: 0 <= i < |s| - 1 ==> NotTwoAt(s, i, ' ')
  }

  /** A character put in front of single-spaced text keeps it single-spaced
      unless both it and the text's first character are spaces. */
  lemma ConsSingleSpaced(h: char, c: string)
    requires SingleSpaced(c)
    requires h == ' ' && |c| > 0 ==> c[0] != ' '
    ensures SingleSpaced([h] + c)
  {
    var d := [h] + c;
    forall i | 0 <= i < |d| - 1
      ensures NotTwoAt(d, i, ' ')
    {
      assert d[i + 1] == c[i];
      if i > 0 {
        assert d[i] == c[i - 1];
        assert NotTwoAt(c, i - 1, ' ');
      }
    }
  }

  predicate IsUpper(c: char) {
    'A' <= c <= 'Z'
  }

  predicate NoUpper(s: string) {
    forall i :: 0 <= i < |s| ==> !IsUpper(s[i])
  }

  /** The collapse introduces no upper-case letter. */
  lemma {:induction false} CollapseNoUpper(s: string)
    requires NoUpper(s)
    ensures NoUpper(CollapseSpaces(s))
  {
    if |s| > 0 {
      var head := if IsSpace(s[0]) then ' ' else s[0];
      var t := if IsSpace(s[0]) then StripLeft(s[1..]) else s[1..];
      assert t == s[|s| - |t|..];
      assert NoUpper(t) by {
        forall i | 0 <= i < |t|
          ensures !IsUpper(t[i])
        {
          assert t[i] == s[|s| - |t| + i];
        }
      }
      CollapseNoUpper(t);
      var ct := CollapseSpaces(t);
      assert CollapseSpaces(s) == [head] + ct;
      assert !IsUpper(head);
      forall i | 0 <= i < |[head] + ct|
        ensures !IsUpper(([head] + ct)[i])
      {
        if i > 0 {
          assert ([head] + ct)[i] == ct[i - 1];
        }
      }
    }
  }

  /** On text with single plain spaces only, the collapse changes nothing. */
  lemma {:induction false} CollapseOfSingleSpaced(s: string)
    requires forall i :: 0 <= i < |s| ==> IsSpace(s[i]) ==> s[i] == ' '
    requires SingleSpaced(s)
    ensures CollapseSpaces(s) == s
  {
    if |s| > 0 {
      forall i | 0 <= i < |s| - 2
        ensures NotTwoAt(s[1..], i, ' ')
      {
        assert NotTwoAt(s, i + 1, ' ');
      }
      if IsSpace(s[0]) {
        if |s| > 1 {
          assert NotTwoAt(s, 0, ' ');
          assert !IsSpace(s[1]);
        }
        assert StripLeft(s[1..]) == s[1..];
      }
      CollapseOfSingleSpaced(s[1..]);
    }
  }

  /** `_normalize_header`: strip, lower-case, collapse whitespace runs. */
  function NormalizeHeader(s: string): string {
    CollapseSpaces(Lower(Strip(s)))
  }

  /** A normalised header is lower-case, single-spaced and trimmed. */
  lemma NormalizeHeaderIsNormal(s: string)
    ensures IsNormalHeader(NormalizeHeader(s))
  {
    var t := Lower(Strip(s));
    LowerOfTrimmed(Strip(s));
    CollapsePlainSpaces(t);
    CollapseSingleSpaces(t);
    CollapseNoUpper(t);
    CollapseEnds(t);
  }

  /** Lower-casing leaves no upper-case letter and keeps trimmed text trimmed. */
  lemma LowerOfTrimmed(s: string)
    requires s == [] || (!IsSpace(s[0]) && !IsSpace(s[|s| - 1]))
    ensures NoUpper(Lower(s))
    ensures Lower(s) == [] || (!IsSpace(Lower(s)[0]) && !IsSpace(Lower(s)[|s| - 1]))
  {
  }

  /** A normalised header is a fixed point of the normalisation. */
  lemma NormalHeaderIsFixed(s: string)
    requires IsNormalHeader(s)
    ensures NormalizeHeader(s) == s
  {
    StripOfTrimmed(s);
    assert Lower(s) == s;
    CollapseOfSingleSpaced(s);
  }

  /** Normalising a header twice is the same as normalising it once. */
  lemma NormalizeHeaderIdempotent(s: string)
    ensures NormalizeHeader(NormalizeHeader(s)) == NormalizeHeader(s)
  {
    NormalizeHeaderIsNormal(s);
    NormalHeaderIsFixed(NormalizeHeader(s));
  }

  /** `s.replace(old, new)` for single characters. */
  function ReplaceChar(s: string, from: char, to: char): (r: string)
    ensures |r| == |s|
    ensures forall i :: 0 <= i < |s| ==> r[i] == (if s[i] == from then to else s[i])
  {
    seq(|s|, i requires 0 <= i < |s| => if s[i] == from then to else s[i])
  }

  /** `_normalize_sheet_name`: underscores count as spaces, then the header
      normalisation. On a name without underscores it agrees with the header
      rule, and names differing only in `_` versus space normalise alike. */
  function NormalizeSheetName(s: string): (r: string)
    ensures '_' !in s ==> r == NormalizeHeader(s)
  {
    var u := ReplaceChar(s, '_', ' ');
    assert '_' !in s ==> u == s;
    NormalizeHeader(u)
  }

  /** Writing an underscore for a space (or the reverse) does not change the
      normalised sheet name. */
  lemma SheetNameUnderscoreIsSpace(s: string, t: string)
    requires |s| == |t|
    requires forall i :: 0 <= i < |s| ==> s[i] == t[i] || (s[i] == '_' && t[i] == ' ') || (s[i] == ' ' && t[i] == '_')
    ensures NormalizeSheetName(s) == NormalizeSheetName(t)
  {
    var u, v := ReplaceChar(s, '_', ' '), ReplaceChar(t, '_', ' ');
    forall i | 0 <= i < |s|
      ensures u[i] == v[i]
    {
    }
    assert u == v;
  }

  /** The value `_clean_str` (and the services' `_empty_to_none`) gives a
      cell: `None` when the cell is absent or whitespace only, else the
      stripped text. */
  function CleanStr(value: Option<string>): (r: Option<string>)
    ensures r.None? <==> value.None? || AllSpace(value.value)
    ensures r.Some? ==> r.value == Strip(value.value) && |r.value| > 0
  {
    match value
    case None => None
    case Some(v) =>
      StripEmptyIffBlank(v);
      var t := Strip(v);
      if t == "" then None else Some(t)
  }

  /** The names of a CSV header row with surrounding whitespace removed,
      as the services' header checks compare them. */
  function StrippedNames(header: seq<string>): set<string> {
    set i | 0 <= i < |header| :: Strip(header[i])
  }

  /** SQLite's one-argument `TRIM`: removes spaces, and only spaces, at both ends. */
  function SqlTrim(s: string): (r: string)
    ensures |r| <= |s|
    ensures r == [] || (r[0] != ' ' && r[|r| - 1] != ' ')
  {
    s[LeadingBlanks(s)..|s| - TrailingBlanks(s[LeadingBlanks(s)..])]
  }

  /** The number of spaces `s` starts with. */
  function LeadingBlanks(s: string): (n: nat)
    ensures n <= |s|
    ensures forall k :: 0 <= k < n ==> s[k] == ' '
    ensures n == |s| || s[n] != ' '
  {
    if |s| > 0 && s[0] == ' ' then 1 + LeadingBlanks(s[1..]) else 0
  }

  /** The number of spaces `s` ends with. */
  function TrailingBlanks(s: string): (n: nat)
    ensures n <= |s|
    ensures forall k :: |s| - n <= k < |s| ==> s[k] == ' '
    ensures n == |s| || s[|s| - n - 1] != ' '
  {
    if |s| > 0 && s[|s| - 1] == ' ' then 1 + TrailingBlanks(s[..|s| - 1]) else 0
  }

  /** What `SqlTrim` removes is spaces at the margins and nothing else:
      the result is a slice of `s` with only spaces on either side. */
  lemma SqlTrimIsSlice(s: string)
    ensures exists i, j :: 0 <= i <= j <= |s| && SqlTrim(s) == s[i..j]
                           && (forall k :: 0 <= k < i ==> s[k] == ' ')
                           && (forall k :: j <= k < |s| ==> s[k] == ' ')
  {
    var i := LeadingBlanks(s);
    var j := |s| - TrailingBlanks(s[i..]);
    forall k | j <= k < |s| ensures s[k] == ' ' {
      assert s[k] == s[i..][k - i];
    }
    assert SqlTrim(s) == s[i..j];
  }

  /** Text without spaces at its margins is its own trim. */
  lemma SqlTrimOfTrimmed(s: string)
    requires s == [] || (s[0] != ' ' && s[|s| - 1] != ' ')
    ensures SqlTrim(s) == s
  {
    assert LeadingBlanks(s) == 0;
    assert s[0..] == s;
    assert TrailingBlanks(s) == 0;
  }

  predicate StartsWith(s: string, prefix: string) {
    |prefix| <= |s| && s[..|prefix|] == prefix
  }

  predicate EndsWith(s: string, suffix: string) {
    |suffix| <= |s| && s[|s| - |suffix|..] == suffix
  }

  /** `s.replace(c, t)`: every occurrence of `c` becomes `t`. */
  function ReplaceAll(s: string, c: char, t: string): (r: string)
    ensures c !in t ==> c !in r
    ensures c !in s ==> r == s
    ensures |s| > 0 && s[|s| - 1] == c ==> EndsWith(r, t)
  {
    if |s| == 0 then ""
    else
      var rest := ReplaceAll(s[..|s| - 1], c, t);
      if s[|s| - 1] == c then
        assert (rest + t)[|rest + t| - |t|..] == t;
        rest + t
      else
        assert s == s[..|s| - 1] + [s[|s| - 1]];
        rest + [s[|s| - 1]]
  }

  /** Replacing works character by character: the replacement of a
      concatenation is the concatenation of the replacements. */
  lemma {:induction false} ReplaceAllAppend(a: string, b: string, c: char, t: string)
    ensures ReplaceAll(a + b, c, t) == ReplaceAll(a, c, t) + ReplaceAll(b, c, t)
    decreases |b|
  {
    if |b| == 0 {
      assert a + b == a;
    } else {
      var init, last := b[..|b| - 1], b[|b| - 1];
      var piece := if last == c then t else [last];
      var ab := a + b;
      assert ab[..|ab| - 1] == a + init;
      assert ab[|ab| - 1] == last;
      ReplaceAllLast(ab, c, t);
      ReplaceAllLast(b, c, t);
      ReplaceAllAppend(a, init, c, t);
      AppendAssoc(ReplaceAll(a, c, t), ReplaceAll(init, c, t), piece);
    }
  }

  /** Putting texts together is associative. */
  lemma AppendAssoc(x: string, y: string, z: string)
    ensures (x + y) + z == x + (y + z)
  {
  }

  /** The replacement of a non-empty text is that of all but its last
      character, followed by the last character's replacement. */
  lemma ReplaceAllLast(s: string, c: char, t: string)
    requires |s| > 0
    ensures ReplaceAll(s, c, t)
            == ReplaceAll(s[..|s| - 1], c, t) + (if s[|s| - 1] == c then t else [s[|s| - 1]])
  {
  }

  /** On one character, `c` becomes `t` and any other character stays. */
  lemma ReplaceAllChar(d: char, c: char, t: string)
    ensures ReplaceAll([d], c, t) == if d == c then t else [d]
  {
    assert [d][..0] == [];
  }

  /** The position of the last `c` in `s`, as `str.rfind` (`None` for -1). */
  function LastIndexOf(s: string, c: char): (r: Option<nat>)
    ensures r.Some? ==> r.value < |s| && s[r.value] == c && c !in s[r.value + 1..]
    ensures r.None? ==> c !in s
  {
    if |s| == 0 then None
    else if s[|s| - 1] == c then Some(|s| - 1)
    else
      var r := LastIndexOf(s[..|s| - 1], c);
      assert s == s[..|s| - 1] + [s[|s| - 1]];
      if r.Some? then
        assert s[r.value + 1..] == s[..|s| - 1][r.value + 1..] + [s[|s| - 1]];
        r
      else r
  }

  /** `PurePath.suffix` of a file name: from the last dot on, when that dot
      is neither the first nor the last character; otherwise empty. */
  function Suffix(name: string): (r: string)
    ensures |r| <= |name|
  {
    match LastIndexOf(name, '.')
    case Some(i) => if 0 < i < |name| - 1 then name[i..] else ""
    case None => ""
  }

  /** What `Suffix` returns: a dot and at least one further character,
      no other dot, at the end of a name that has something before it;
      empty exactly when no dot qualifies. */
  lemma SuffixShape(name: string)
    ensures var r := Suffix(name);
            r != "" ==> 2 <= |r| < |name| && r[0] == '.' && EndsWith(name, r) && '.' !in r[1..]
    ensures Suffix(name) == "" ==> match LastIndexOf(name, '.')
                                   case None => true
                                   case Some(i) => i == 0 || i == |name| - 1
  {
    match LastIndexOf(name, '.')
    case Some(i) =>
      if 0 < i < |name| - 1 {
        assert name[|name| - |name[i..]|..] == name[i..];
      }
    case None =>
  }

  /** `PurePath.stem`: the file name without its suffix. */
  function Stem(name: string): (r: string)
    ensures r + Suffix(name) == name
  {
    var sfx := Suffix(name);
    var r := name[..|name| - |sfx|];
    assert r + sfx == name;
    r
  }

  predicate IsDigit(c: char) {
    '0' <= c <= '9'
  }

  function DigitValue(c: char): nat
    requires IsDigit(c)
  {
    c as int - '0' as int
  }

  function DigitChar(d: nat): (c: char)
    requires d < 10
    ensures IsDigit(c) && DigitValue(c) == d
  {
    ('0' as int + d) as char
  }

  /** The digit text `int()` accepts after the sign: digits, where single
      underscores may separate two digits. */
  predicate IsDigitText(s: string) {
    && |s| > 0
    && IsDigit(s[0]) && IsDigit(s[|s| - 1])
    && (forall i :: 0 <= i < |s| ==> IsDigit(s[i]) || s[i] == '_')
    && (forall i :: 0 <= i < |s| - 1 ==> NotTwoAt(s, i, '_'))
  }

  /** `s[i]` and `s[i + 1]` are not both `c`. */
  predicate NotTwoAt(s: string, i: int, c: char)
    requires 0 <= i < |s| - 1
  {
    s[i] == c ==> s[i + 1] != c
  }

  /** The decimal value of the digits of `s`, underscores skipped. */
  function DecimalValue(s: string): nat
  {
    if |s| == 0 then 0
    else if IsDigit(s[|s| - 1]) then DecimalValue(s[..|s| - 1]) * 10 + DigitValue(s[|s| - 1])
    else DecimalValue(s[..|s| - 1])
  }

  /** Python's `int(text)` in base 10 over ASCII digits: surrounding
      whitespace allowed, an optional sign, then digit text; `None` where
      `int()` raises `ValueError`. Python also accepts non-ASCII Unicode
      decimal digits and rejects texts of more than 4300 digits; neither
      is modelled here. */
  function ParseInt(text: string): Option<int>
  {
    ParseSigned(Strip(text))
  }

  /** `int()` on text that has already been stripped. */
  function ParseSigned(t: string): Option<int>
  {
    if |t| > 0 && (t[0] == '-' || t[0] == '+') then
      if IsDigitText(t[1..]) then
        var magnitude: int := DecimalValue(t[1..]);
        Some(if t[0] == '-' then -magnitude else magnitude)
      else None
    else if IsDigitText(t) then Some(DecimalValue(t))
    else None
  }

  /** Blank text is not an integer. */
  lemma ParseIntRejectsBlank(text: string)
    requires AllSpace(text)
    ensures ParseInt(text) == None
  {
    StripEmptyIffBlank(text);
  }

  /** `str(n)` for a natural number: decimal digits, no leading zero. */
  function NatToString(n: nat): (r: string)
    ensures |r| > 0 && (forall i :: 0 <= i < |r| ==> IsDigit(r[i]))
  {
    if n < 10 then [DigitChar(n)] else NatToString(n / 10) + [DigitChar(n % 10)]
  }

  /** `str(n)` for an integer. */
  function IntToString(n: int): string {
    if n < 0 then "-" + NatToString(-n) else NatToString(n)
  }

  lemma {:induction false} NatToStringValue(n: nat)
    ensures IsDigitText(NatToString(n))
    ensures DecimalValue(NatToString(n)) == n
  {
    var s := NatToString(n);
    if n >= 10 {
      NatToStringValue(n / 10);
      assert s[..|s| - 1] == NatToString(n / 10);
    }
  }

  lemma ParseSignedOfIntToString(n: int)
    ensures ParseSigned(IntToString(n)) == Some(n)
  {
    var s := IntToString(n);
    if n < 0 {
      var d := NatToString(-n);
      NatToStringValue(-n);
      assert s == "-" + d;
      assert s[1..] == d;
    } else {
      NatToStringValue(n);
    }
  }

  /** `int(str(n)) == n`: reading back the decimal text of an integer. */
  lemma ParseIntOfIntToString(n: int)
    ensures ParseInt(IntToString(n)) == Some(n)
  {
    var s := IntToString(n);
    ParseSignedOfIntToString(n);
    if n < 0 {
      var d := NatToString(-n);
      assert s == "-" + d;
      assert s[|s| - 1] == d[|d| - 1];
    }
    StripOfTrimmed(s);
  }

  /** Python's `<=` on strings: code-point lexicographic order, a proper
      prefix first. */
  predicate LexLe(a: string, b: string)
  {
    |a| == 0 || (|b| > 0 && (a[0] < b[0] || (a[0] == b[0] && LexLe(a[1..], b[1..]))))
  }

  lemma {:induction false} LexLeTotal(a: string, b: string)
    ensures LexLe(a, b) || LexLe(b, a)
  {
    if |a| > 0 && |b| > 0 && a[0] == b[0] {
      LexLeTotal(a[1..], b[1..]);
    }
  }

  lemma {:induction false} LexLeTransitive(a: string, b: string, c: string)
    requires LexLe(a, b) && LexLe(b, c)
    ensures LexLe(a, c)
  {
    if |a| > 0 && |b| > 0 && |c| > 0 && a[0] == b[0] && b[0] == c[0] {
      LexLeTransitive(a[1..], b[1..], c[1..]);
    }
  }

  lemma {:induction false} LexLeAntisymmetric(a: string, b: string)
    requires LexLe(a, b) && LexLe(b, a)
    ensures a == b
  {
    if |a| > 0 && |b| > 0 {
      LexLeAntisymmetric(a[1..], b[1..]);
      assert a == [a[0]] + a[1..];
      assert b == [b[0]] + b[1..];
    }
  }
}

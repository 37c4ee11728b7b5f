/** The slice of Python's `str` behaviour the scrapers rely on: whitespace,
    strip(), lower(), startswith/in, split(sep) and sep.join(), and decimal
    rendering and parsing of integers. Strings are sequences of Unicode scalar values,
    as Python strings are sequences of code points. */
module Strs {
  import opened Wrappers

  /** Python's `str.isspace()` on one code point; a `str` regex's `\s`
      matches the same set. */
  predicate IsSpace(c: char) {
    || ('\t' <= c <= '\r')
    || ('\U{1C}' <= c <= '\U{1F}')
    || c == ' '
    || c == '\U{85}'
    || c == '\U{A0}'
    || c == '\U{1680}'
    || ('\U{2000}' <= c <= '\U{200A}')
    || c == '\U{2028}'
    || c == '\U{2029}'
    || c == '\U{202F}'
    || c == '\U{205F}'
    || c == '\U{3000}'
  }

  /** ASCII decimal digit (the model's reading of the regex class `\d`). */
  predicate IsDigit(c: char) {
    '0' <= c <= '9'
  }

  predicate AllSpace(s: string) {
    forall i :: 0 <= i < |s| ==> IsSpace(s[i])
  }

  predicate AllDigits(s: string) {
    forall i :: 0 <= i < |s| ==> IsDigit(s[i])
  }

  /** No whitespace at either end: what `strip()` leaves behind. */
  predicate Trimmed(s: string) {
    |s| == 0 || (!IsSpace(s[0]) && !IsSpace(s[|s| - 1]))
  }

  function TrimLeft(s: string): (r: string)
    ensures |r| <= |s| && r == s[|s| - |r|..]
    ensures AllSpace(s[..|s| - |r|])
    ensures |r| > 0 ==> !IsSpace(r[0])
  {
    if |s| > 0 && IsSpace(s[0]) then TrimLeft(s[1..]) else s
  }

  function TrimRight(s: string): (r: string)
    ensures |r| <= |s| && r == s[..|r|]
    ensures AllSpace(s[|r|..])
    ensures |r| > 0 ==> !IsSpace(r[|r| - 1])
  {
    if |s| > 0 && IsSpace(s[|s| - 1]) then TrimRight(s[..|s| - 1]) else s
  }

  /** Python's `s.strip()`: the middle of `s` once the whitespace runs at
      both ends are removed. */
  function Strip(s: string): (r: string)
    ensures Trimmed(r)
    ensures |r| <= |s|
  {
    TrimRight(TrimLeft(s))
  }

  /** `strip()` removes a whitespace run from each end and nothing else. */
  lemma StripSlice(s: string)
    ensures exists i, j :: 0 <= i <= j <= |s| && Strip(s) == s[i..j] && AllSpace(s[..i]) && AllSpace(s[j..])
  {
    var l := TrimLeft(s);
    var r := TrimRight(l);
    var i := |s| - |l|;
    var j := i + |r|;
    assert r == s[i..j];
    assert s[j..] == l[|r|..];
    assert AllSpace(s[..i]) && AllSpace(s[j..]);
  }

  /** `r` is `s` less a whitespace run at each end. */
  ghost predicate Inner(s: string, r: string) {
    exists i, j :: 0 <= i <= j <= |s| && s[i..j] == r && AllSpace(s[..i]) && AllSpace(s[j..])
  }

  /** Every character of the stripped string is a character of the input. */
  lemma StripChars(s: string)
    ensures forall c :: c in Strip(s) ==> c in s
  {
    var l := TrimLeft(s);
    assert forall c :: c in TrimRight(l) ==> c in l;
    assert forall c :: c in l ==> c in s;
  }

  /** Only an all-whitespace string strips to nothing. */
  lemma StripBlank(s: string)
    ensures Strip(s) == "" <==> AllSpace(s)
  {
    StripSlice(s);
  }

  /** A string with no whitespace at its ends is its own strip. */
  lemma StripTrimmed(s: string)
    requires Trimmed(s)
    ensures Strip(s) == s
  {
  }

  /** `strip()` is idempotent. */
  lemma StripIdempotent(s: string)
    ensures Strip(Strip(s)) == Strip(s)
  {
    StripTrimmed(Strip(s));
  }

  /** Python's `lower()` restricted to ASCII letters. */
  function LowerChar(c: char): char {
    if 'A' <= c <= 'Z' then (c as int + 32) as char else c
  }

  function Lower(s: string): (r: string)
    ensures |r| == |s|
    ensures forall i :: 0 <= i < |s| ==> r[i] == LowerChar(s[i])
  {
    seq(|s|, i requires 0 <= i < |s| => LowerChar(s[i]))
  }

  /** Python's `s.startswith(p)`. */
  predicate StartsWith(s: string, p: string) {
    |p| <= |s| && s[..|p|] == p
  }

  /** `sub` occurs in `s` starting at index `i`. */
  predicate OccursAt(s: string, sub: string, i: int) {
    0 <= i && i + |sub| <= |s| && s[i..i + |sub|] == sub
  }

  /** Python's `sub in s`. */
  predicate Contains(s: string, sub: string) {
    exists i | 0 <= i <= |s| - |sub| :: OccursAt(s, sub, i)
  }

  /** Index of the last `c` in `s`, or -1 (`str.rfind`). */
  function RFind(s: string, c: char): (i: int)
    ensures -1 <= i < |s|
    ensures i >= 0 ==> s[i] == c
    ensures forall j :: i < j < |s| ==> s[j] != c
  {
    if |s| == 0 then -1
    else if s[|s| - 1] == c then |s| - 1
    else RFind(s[..|s| - 1], c)
  }

  /** The last occurrence is the one with no occurrence after it. */
  lemma RFindIs(s: string, c: char, i: int)
    requires 0 <= i < |s| && s[i] == c
    requires forall j :: i < j < |s| ==> s[j] != c
    ensures RFind(s, c) == i
  {
  }

  /** Index of the first occurrence of `c` in `s`, or `|s|` when there is none. */
  function IndexOf(s: string, c: char): (k: nat)
    ensures k <= |s|
    ensures k < |s| ==> s[k] == c
    ensures c !in s[..k]
  {
    if |s| == 0 || s[0] == c then 0 else 1 + IndexOf(s[1..], c)
  }

  /** Index of the first occurrence of `sub` in `s`, or `|s| + 1` when there is none. */
  function FindSub(s: string, sub: string): (k: nat)
    ensures k <= |s| + 1
    ensures k <= |s| ==> OccursAt(s, sub, k)
    ensures forall i :: 0 <= i < k ==> !OccursAt(s, sub, i)
  {
    if |sub| > |s| then |s| + 1
    else if s[..|sub|] == sub then 0
    else
      var k := FindSub(s[1..], sub);
      assert forall i :: 1 <= i ==> (OccursAt(s, sub, i) <==> OccursAt(s[1..], sub, i - 1)) by {
        forall i | 1 <= i
          ensures OccursAt(s, sub, i) <==> OccursAt(s[1..], sub, i - 1)
        {
          OccursShift(s, sub, i);
        }
      }
      1 + k
  }

  /** An occurrence past the first position is an occurrence in the tail. */
  lemma OccursShift(s: string, sub: string, i: int)
    requires |s| > 0 && 1 <= i
    ensures OccursAt(s, sub, i) <==> OccursAt(s[1..], sub, i - 1)
  {
    var t := s[1..];
    if i + |sub| <= |s| {
      assert t[i - 1..i - 1 + |sub|] == s[i..i + |sub|];
    }
  }

  lemma FindSubContains(s: string, sub: string)
    ensures FindSub(s, sub) <= |s| <==> Contains(s, sub)
  {
    var k := FindSub(s, sub);
    if Contains(s, sub) {
      var i :| 0 <= i <= |s| - |sub| && OccursAt(s, sub, i);
      assert k <= i;
    }
  }

  /** Python's `s.split(sep, 1)[1]`: the text after the first occurrence of `sep`. */
  function AfterFirst(s: string, sep: string): (r: string)
    requires Contains(s, sep)
    ensures exists k :: OccursAt(s, sep, k) && (forall i :: 0 <= i < k ==> !OccursAt(s, sep, i)) && r == s[k + |sep|..]
  {
    FindSubContains(s, sep);
    var k := FindSub(s, sep);
    s[k + |sep|..]
  }

  /** Python's `sep.join(parts)` for a one-character separator. */
  function Join(parts: seq<string>, sep: char): string
  {
    if |parts| == 0 then ""
    else if |parts| == 1 then parts[0]
    else parts[0] + [sep] + Join(parts[1..], sep)
  }

  /** Joining parts whose first one is not empty gives a non-empty string. */
  lemma JoinNonEmpty(parts: seq<string>, sep: char)
    requires |parts| > 0 && parts[0] != ""
    ensures Join(parts, sep) != ""
  {
    if |parts| > 1 {
      assert |Join(parts, sep)| >= |parts[0]|;
    }
  }

  /** Python's `s.split(sep)` for a one-character separator. */
  function Split(s: string, sep: char): (parts: seq<string>)
    ensures |parts| >= 1
    ensures forall i :: 0 <= i < |parts| ==> sep !in parts[i]
    ensures Join(parts, sep) == s
    decreases |s|
  {
    var k := IndexOf(s, sep);
    if k == |s| then [s]
    else
      var rest := Split(s[k + 1..], sep);
      assert s == s[..k] + [sep] + s[k + 1..];
      [s[..k]] + rest
  }

  /** The first piece of a split is everything before the first separator. */
  lemma SplitHead(s: string, sep: char)
    ensures Split(s, sep)[0] == s[..IndexOf(s, sep)]
  {
  }

  /** Splitting a join gives back the parts, provided none contains the separator. */
  lemma {:induction false} SplitJoin(parts: seq<string>, sep: char)
    requires |parts| >= 1
    requires forall i :: 0 <= i < |parts| ==> sep !in parts[i]
    ensures Split(Join(parts, sep), sep) == parts
    decreases |parts|
  {
    var s := Join(parts, sep);
    if |parts| == 1 {
      assert IndexOf(s, sep) == |s|;
    } else {
      var p := parts[0];
      var t := Join(parts[1..], sep);
      assert s == p + [sep] + t;
      var k := IndexOf(s, sep);
      assert s[|p|] == sep;
      assert k == |p|;
      assert s[..k] == p;
      assert s[k + 1..] == t;
      SplitJoin(parts[1..], sep);
      assert Split(s, sep) == [p] + parts[1..];
    }
  }

  /** Length of the leading run of characters satisfying `p`. */
  function RunLength(s: string, p: char -> bool): (k: nat)
    ensures k <= |s|
    ensures forall i :: 0 <= i < k ==> p(s[i])
    ensures k < |s| ==> !p(s[k])
  {
    if |s| > 0 && p(s[0]) then 1 + RunLength(s[1..], p) else 0
  }

  /** The non-empty pieces of `re.split("[<class>]+", s)` for a character
      class `isSep`: the maximal runs of non-separator characters, in order.
      (`re.split` also yields an empty piece before a leading or after a
      trailing separator run; callers that drop empty pieces see exactly
      these.) */
  function Fields(s: string, isSep: char -> bool): (r: seq<string>)
    ensures forall i :: 0 <= i < |r| ==> r[i] != "" && forall c :: c in r[i] ==> !isSep(c)
    ensures (forall c :: c in s ==> isSep(c)) ==> r == []
    decreases |s|
  {
    if |s| == 0 then []
    else if isSep(s[0]) then Fields(s[1..], isSep)
    else
      var k := FieldLength(s, isSep);
      [s[..k]] + Fields(s[k..], isSep)
  }

  /** The fields of `s` sit at strictly increasing positions of `s`, and
      every position where a field starts holds one of them: `Fields`
      drops only separators and keeps every word whole and in order. */
  lemma {:induction false} FieldsPositions(s: string, isSep: char -> bool)
    ensures exists idx :: FieldsAt(s, isSep, Fields(s, isSep), idx)
    decreases |s|
  {
    if |s| == 0 {
      assert Fields(s, isSep) == [];
      assert FieldsAt(s, isSep, [], []);
    } else if isSep(s[0]) {
      FieldsPositions(s[1..], isSep);
      assert Fields(s, isSep) == Fields(s[1..], isSep);
      FieldsSkip(s, isSep, Fields(s[1..], isSep));
    } else {
      var k := FieldLength(s, isSep);
      FieldsPositions(s[k..], isSep);
      assert Fields(s, isSep) == [s[..k]] + Fields(s[k..], isSep);
      FieldsFront(s, isSep, k, Fields(s[k..], isSep));
    }
  }

  /** `f` is the field of `s` that starts at `i`: a non-empty run of
      non-separators with a separator or an end of `s` on either side. */
  ghost predicate FieldAt(s: string, isSep: char -> bool, f: string, i: int) {
    && 0 <= i && i + |f| <= |s| && f != ""
    && s[i..i + |f|] == f
    && (forall j :: i <= j < i + |f| ==> !isSep(s[j]))
    && (i == 0 || isSep(s[i - 1]))
    && (i + |f| == |s| || isSep(s[i + |f|]))
  }

  /** A field of `s` begins at `i`. */
  predicate FieldStart(s: string, isSep: char -> bool, i: int) {
    0 <= i < |s| && !isSep(s[i]) && (i == 0 || isSep(s[i - 1]))
  }

  /** `r` lists the fields of `s` in order, the `k`-th starting at `idx[k]`,
      and every position where a field begins is listed. */
  ghost predicate FieldsAt(s: string, isSep: char -> bool, r: seq<string>, idx: seq<nat>) {
    && |idx| == |r|
    && (forall k :: 0 <= k < |idx| ==> FieldAt(s, isSep, r[k], idx[k]))
    && (forall k, l :: 0 <= k < l < |idx| ==> idx[k] < idx[l])
    && (forall i :: FieldStart(s, isSep, i) ==> i in idx)
  }

  /** The fields of `s[d..]` are fields of `s`, `d` positions further on,
      when a field of `s` cannot straddle position `d`. */
  lemma ShiftFields(s: string, isSep: char -> bool, d: nat, r: seq<string>, rest: seq<nat>) returns (idx: seq<nat>)
    requires 0 < d <= |s|
    requires FieldsAt(s[d..], isSep, r, rest)
    requires isSep(s[d - 1]) || d == |s| || isSep(s[d])
    ensures |idx| == |r|
    ensures forall k :: 0 <= k < |idx| ==> FieldAt(s, isSep, r[k], idx[k]) && idx[k] >= d
    ensures forall k, l :: 0 <= k < l < |idx| ==> idx[k] < idx[l]
    ensures forall i :: d <= i && FieldStart(s, isSep, i) ==> i in idx
  {
    idx := seq(|rest|, k requires 0 <= k < |rest| => rest[k] + d);
    var t := s[d..];
    forall k | 0 <= k < |idx| ensures FieldAt(s, isSep, r[k], idx[k]) {
      assert FieldAt(t, isSep, r[k], rest[k]);
      ShiftFieldAt(s, isSep, d, r[k], rest[k]);
    }
    forall i | d <= i && FieldStart(s, isSep, i) ensures i in idx {
      ShiftFieldStart(s, isSep, d, i);
      var k :| 0 <= k < |rest| && rest[k] == i - d;
      assert idx[k] == i;
    }
  }

  /** One field of `s[d..]` at `i` is a field of `s` at `i + d`. */
  lemma ShiftFieldAt(s: string, isSep: char -> bool, d: nat, f: string, i: nat)
    requires 0 < d <= |s|
    requires FieldAt(s[d..], isSep, f, i)
    requires isSep(s[d - 1]) || d == |s| || isSep(s[d])
    ensures FieldAt(s, isSep, f, i + d)
  {
    var t := s[d..];
    assert s[i + d..i + d + |f|] == t[i..i + |f|];
    forall j | i + d <= j < i + d + |f| ensures !isSep(s[j]) {
      assert s[j] == t[j - d];
    }
    if i == 0 {
      assert t[0] == s[d];
    } else {
      assert s[i + d - 1] == t[i - 1];
    }
    if i + |f| < |t| {
      assert s[i + d + |f|] == t[i + |f|];
    }
  }

  /** A field of `s` beginning at or after `d` begins a field of `s[d..]`. */
  lemma ShiftFieldStart(s: string, isSep: char -> bool, d: nat, i: int)
    requires 0 < d <= i
    requires FieldStart(s, isSep, i)
    ensures FieldStart(s[d..], isSep, i - d)
  {
    var t := s[d..];
    assert t[i - d] == s[i];
    if i > d {
      assert t[i - d - 1] == s[i - 1];
    }
  }

  /** A leading separator begins no field. */
  lemma FieldsSkip(s: string, isSep: char -> bool, r: seq<string>)
    requires |s| > 0 && isSep(s[0])
    requires exists rest :: FieldsAt(s[1..], isSep, r, rest)
    ensures exists idx :: FieldsAt(s, isSep, r, idx)
  {
    var rest :| FieldsAt(s[1..], isSep, r, rest);
    var idx := ShiftFields(s, isSep, 1, r, rest);
    assert FieldsAt(s, isSep, r, idx);
  }

  /** A leading run of `k` non-separators is the first field. */
  lemma FieldsFront(s: string, isSep: char -> bool, k: nat, r: seq<string>)
    requires 0 < k <= |s|
    requires forall i :: 0 <= i < k ==> !isSep(s[i])
    requires k == |s| || isSep(s[k])
    requires exists rest :: FieldsAt(s[k..], isSep, r, rest)
    ensures exists idx :: FieldsAt(s, isSep, [s[..k]] + r, idx)
  {
    var rest :| FieldsAt(s[k..], isSep, r, rest);
    var shifted := ShiftFields(s, isSep, k, r, rest);
    PrependField(s, isSep, k, r, shifted);
  }

  lemma PrependField(s: string, isSep: char -> bool, k: nat, r: seq<string>, shifted: seq<nat>)
    requires 0 < k <= |s|
    requires forall i :: 0 <= i < k ==> !isSep(s[i])
    requires k == |s| || isSep(s[k])
    requires |shifted| == |r|
    requires forall j :: 0 <= j < |shifted| ==> FieldAt(s, isSep, r[j], shifted[j]) && shifted[j] >= k
    requires forall j, l :: 0 <= j < l < |shifted| ==> shifted[j] < shifted[l]
    requires forall i :: k <= i && FieldStart(s, isSep, i) ==> i in shifted
    ensures FieldsAt(s, isSep, [s[..k]] + r, [0] + shifted)
  {
    var idx := [0] + shifted;
    var r' := [s[..k]] + r;
    assert FieldAt(s, isSep, s[..k], 0);
    assert forall j :: 1 <= j < |idx| ==> idx[j] == shifted[j - 1] && r'[j] == r[j - 1];
    PrependCover(s, isSep, k, shifted);
  }

  /** With the first field at 0 and the others from `k` on, every field
      start is listed. */
  lemma PrependCover(s: string, isSep: char -> bool, k: nat, shifted: seq<nat>)
    requires 0 < k <= |s|
    requires forall i :: 0 <= i < k ==> !isSep(s[i])
    requires forall i :: k <= i && FieldStart(s, isSep, i) ==> i in shifted
    ensures forall i :: FieldStart(s, isSep, i) ==> i in [0] + shifted
  {
    var idx := [0] + shifted;
    forall i | FieldStart(s, isSep, i) ensures i in idx {
      if i == 0 {
        assert idx[0] == 0;
      } else if i < k {
        assert false;
      } else {
        var j :| 0 <= j < |shifted| && shifted[j] == i;
        assert idx[j + 1] == i;
      }
    }
  }

  /** Length of the leading run of non-separator characters. */
  function FieldLength(s: string, isSep: char -> bool): (k: nat)
    ensures k <= |s|
    ensures forall i :: 0 <= i < k ==> !isSep(s[i])
    ensures k < |s| ==> isSep(s[k])
  {
    if |s| > 0 && !isSep(s[0]) then 1 + FieldLength(s[1..], isSep) else 0
  }

  /** Fields separated by a separator character come back out of `Fields`:
      the partner of `Fields`, as `SplitJoin` is of `Split`. */
  lemma {:induction false} FieldsJoin(parts: seq<string>, sep: char, isSep: char -> bool)
    requires isSep(sep)
    requires forall i :: 0 <= i < |parts| ==> parts[i] != "" && forall c :: c in parts[i] ==> !isSep(c)
    ensures Fields(Join(parts, sep), isSep) == parts
    decreases |parts|
  {
    if |parts| == 1 {
      FieldsCons(parts[0], "", isSep);
      assert parts[0] + "" == parts[0];
    } else if |parts| > 1 {
      var t := Join(parts[1..], sep);
      var u := [sep] + t;
      assert Join(parts, sep) == parts[0] + u;
      FieldsCons(parts[0], u, isSep);
      assert u[1..] == t;
      assert Fields(u, isSep) == Fields(t, isSep);
      FieldsJoin(parts[1..], sep, isSep);
      assert parts == [parts[0]] + parts[1..];
    }
  }

  /** A field followed by nothing or by a separator is cut off whole. */
  lemma FieldsCons(p: string, rest: string, isSep: char -> bool)
    requires p != "" && forall c :: c in p ==> !isSep(c)
    requires |rest| == 0 || isSep(rest[0])
    ensures Fields(p + rest, isSep) == [p] + Fields(rest, isSep)
  {
    var s := p + rest;
    FieldLengthPrefix(p, rest, isSep);
    assert s[..|p|] == p;
    assert s[|p|..] == rest;
  }

  lemma {:induction false} FieldLengthPrefix(a: string, b: string, isSep: char -> bool)
    requires forall c :: c in a ==> !isSep(c)
    requires |b| == 0 || isSep(b[0])
    ensures FieldLength(a + b, isSep) == |a|
    decreases |a|
  {
    if |a| > 0 {
      assert (a + b)[1..] == a[1..] + b;
      FieldLengthPrefix(a[1..], b, isSep);
    } else {
      assert a + b == b;
    }
  }

  /** `re.sub(r"\s+", " ", s)`: every maximal whitespace run becomes one
      space. */
  function CollapseSpaces(s: string): (r: string)
    ensures |r| <= |s|
    ensures |r| == 0 <==> |s| == 0
    ensures SingleSpaced(r)
    ensures |s| > 0 ==> (IsSpace(r[0]) <==> IsSpace(s[0]))
    ensures |s| > 0 && !IsSpace(s[0]) ==> r[0] == s[0]
    ensures |s| > 0 ==> (IsSpace(r[|r| - 1]) <==> IsSpace(s[|s| - 1]))
    ensures |s| > 0 && !IsSpace(s[|s| - 1]) ==> r[|r| - 1] == s[|s| - 1]
    decreases |s|
  {
    if |s| == 0 then ""
    else if IsSpace(s[0]) then
      var k := RunLength(s, IsSpace);
      " " + CollapseSpaces(s[k..])
    else
      [s[0]] + CollapseSpaces(s[1..])
  }

  /** `CollapseSpaces` keeps every word of `s`, whole and in order: only
      the whitespace between and around them changes. */
  lemma {:induction false} CollapseKeepsWords(s: string)
    ensures Fields(CollapseSpaces(s), IsSpace) == Fields(s, IsSpace)
    decreases |s|
  {
    if |s| > 0 {
      if IsSpace(s[0]) {
        var k := RunLength(s, IsSpace);
        CollapseKeepsWords(s[k..]);
        CollapseRunWords(s, k);
      } else {
        CollapseKeepsWords(s[1..]);
        CollapseCharWords(s);
      }
    }
  }

  /** The step of `CollapseKeepsWords` for a leading whitespace run. */
  lemma CollapseRunWords(s: string, k: nat)
    requires |s| > 0 && IsSpace(s[0]) && k == RunLength(s, IsSpace)
    requires Fields(CollapseSpaces(s[k..]), IsSpace) == Fields(s[k..], IsSpace)
    ensures Fields(CollapseSpaces(s), IsSpace) == Fields(s, IsSpace)
  {
    var t := CollapseSpaces(s[k..]);
    assert CollapseSpaces(s) == " " + t;
    assert (" " + t)[1..] == t;
    assert Fields(" " + t, IsSpace) == Fields(t, IsSpace);
    FieldsSkipRun(s, IsSpace, k);
  }

  /** The step of `CollapseKeepsWords` for a leading word character. */
  lemma CollapseCharWords(s: string)
    requires |s| > 0 && !IsSpace(s[0])
    requires Fields(CollapseSpaces(s[1..]), IsSpace) == Fields(s[1..], IsSpace)
    ensures Fields(CollapseSpaces(s), IsSpace) == Fields(s, IsSpace)
  {
    var u := s[1..];
    var t := CollapseSpaces(u);
    CollapseWordStep(s);
    if |u| == 0 || IsSpace(u[0]) {
      FieldsConsSep(s[0], t, IsSpace);
      FieldsConsSep(s[0], u, IsSpace);
    } else {
      FieldsConsWord(s[0], t, IsSpace);
      FieldsConsWord(s[0], u, IsSpace);
    }
  }

  /** `CollapseSpaces` copies a leading word character. */
  lemma CollapseWordStep(s: string)
    requires |s| > 0 && !IsSpace(s[0])
    ensures s == [s[0]] + s[1..]
    ensures CollapseSpaces(s) == [s[0]] + CollapseSpaces(s[1..])
  {
  }

  /** Separators at the front begin no field: `Fields` skips them. */
  lemma {:induction false} FieldsSkipRun(s: string, isSep: char -> bool, k: nat)
    requires k <= |s|
    requires forall i :: 0 <= i < k ==> isSep(s[i])
    ensures Fields(s, isSep) == Fields(s[k..], isSep)
    decreases k
  {
    if k > 0 {
      assert s[1..][k - 1..] == s[k..];
      assert forall i :: 0 <= i < k - 1 ==> s[1..][i] == s[i + 1];
      FieldsSkipRun(s[1..], isSep, k - 1);
    }
  }

  /** A non-separator in front of `t` is a field of its own when `t` is
      empty or starts with a separator. */
  lemma FieldsConsSep(c: char, t: string, isSep: char -> bool)
    requires !isSep(c)
    requires |t| == 0 || isSep(t[0])
    ensures Fields([c] + t, isSep) == [[c]] + Fields(t, isSep)
  {
    FieldsCons([c], t, isSep);
  }

  /** A non-separator in front of `t` lengthens the first field of `t`
      when `t` starts with a non-separator. */
  lemma FieldsConsWord(c: char, t: string, isSep: char -> bool)
    requires !isSep(c)
    requires |t| > 0 && !isSep(t[0])
    ensures |Fields(t, isSep)| > 0
    ensures Fields([c] + t, isSep) == [[c] + Fields(t, isSep)[0]] + Fields(t, isSep)[1..]
  {
    var s := [c] + t;
    assert s[1..] == t;
    var m := FieldLength(t, isSep);
    assert FieldLength(s, isSep) == 1 + m;
    assert s[..1 + m] == [c] + t[..m];
    assert s[1 + m..] == t[m..];
    assert Fields(t, isSep) == [t[..m]] + Fields(t[m..], isSep);
    assert Fields(s, isSep) == [s[..1 + m]] + Fields(s[1 + m..], isSep);
  }

  predicate SingleSpaced(s: string) {
    && (forall i :: 0 <= i < |s| && IsSpace(s[i]) ==> s[i] == ' ')
    && (forall i :: 0 <= i < |s| - 1 ==> !(IsSpace(s[i]) && IsSpace(s[i + 1])))
  }

  /** A single-spaced string is left alone by `CollapseSpaces`; in
      particular `CollapseSpaces` is idempotent. */
  lemma {:induction false} CollapseSingleSpaced(s: string)
    requires SingleSpaced(s)
    ensures CollapseSpaces(s) == s
    decreases |s|
  {
    if |s| > 0 {
      var t := s[1..];
      SingleSpacedTail(s);
      CollapseSingleSpaced(t);
      if IsSpace(s[0]) {
        SingleSpaceRun(s);
        assert s[0] == ' ';
      }
      assert s == [s[0]] + t;
    }
  }

  lemma SingleSpacedTail(s: string)
    requires |s| > 0 && SingleSpaced(s)
    ensures SingleSpaced(s[1..])
  {
    var t := s[1..];
    assert forall i :: 0 <= i < |t| ==> t[i] == s[i + 1];
  }

  /** In a single-spaced string a whitespace run has length one. */
  lemma SingleSpaceRun(s: string)
    requires |s| > 0 && SingleSpaced(s) && IsSpace(s[0])
    ensures RunLength(s, IsSpace) == 1
  {
    assert |s| > 1 ==> !IsSpace(s[1]);
    if |s| > 1 {
      assert RunLength(s[1..], IsSpace) == 0;
    }
  }

  /** `re.sub(r"[<class>]+$", "", s)` on a string with no trailing newline:
      the maximal run of class characters at the end is removed. */
  function DropTrailing(s: string, p: char -> bool): (r: string)
    ensures |r| <= |s| && r == s[..|r|]
    ensures forall i :: |r| <= i < |s| ==> p(s[i])
    ensures |r| > 0 ==> !p(r[|r| - 1])
  {
    if |s| > 0 && p(s[|s| - 1]) then DropTrailing(s[..|s| - 1], p) else s
  }

  function DigitChar(d: nat): char
    requires d < 10
  {
    (d + '0' as int) as char
  }

  /** Python's `str(n)` for a non-negative integer. */
  function Decimal(n: nat): (r: string)
    ensures |r| >= 1 && AllDigits(r)
  {
    if n < 10 then [DigitChar(n)] else Decimal(n / 10) + [DigitChar(n % 10)]
  }

  /** The number a run of decimal digits denotes. */
  function DigitsValue(s: string): nat
    requires AllDigits(s)
  {
    if |s| == 0 then 0
    else DigitsValue(s[..|s| - 1]) * 10 + (s[|s| - 1] as int - '0' as int)
  }

  /** Reading back a rendered integer gives the integer. */
  lemma {:induction false} DecimalValue(n: nat)
    ensures DigitsValue(Decimal(n)) == n
  {
    if n >= 10 {
      var r := Decimal(n);
      assert r[..|r| - 1] == Decimal(n / 10);
      DecimalValue(n / 10);
    }
  }

  /** Distinct integers render as distinct strings. */
  lemma DecimalInjective(m: nat, n: nat)
    requires Decimal(m) == Decimal(n)
    ensures m == n
  {
    DecimalValue(m);
    DecimalValue(n);
  }

  /** Python's `str(n)` for any integer. */
  function IntStr(n: int): (r: string)
    ensures |r| >= 1 && (n >= 0 ==> AllDigits(r)) && (n < 0 ==> r[0] == '-' && AllDigits(r[1..]))
  {
    if n >= 0 then Decimal(n) else "-" + Decimal(-n)
  }

  /** `int(s)` of a string: surrounding whitespace, an optional sign and
      at least one decimal digit. */
  function ParseInt(s: string): (r: Option<int>)
  {
    var t := Strip(s);
    if |t| > 0 && AllDigits(t) then Some(DigitsValue(t))
    else if |t| > 1 && (t[0] == '+' || t[0] == '-') && AllDigits(t[1..]) then
      var v: int := DigitsValue(t[1..]);
      Some(if t[0] == '-' then -v else v)
    else None
  }

  lemma AllDigitsTrimmed(s: string)
    ensures AllDigits(s) ==> Strip(s) == s
  {
    if AllDigits(s) && |s| > 0 {
      assert IsDigit(s[0]) && IsDigit(s[|s| - 1]);
      StripTrimmed(s);
    }
  }

  /** A non-empty run of digits parses to its value. */
  lemma ParseIntDigits(s: string)
    requires |s| > 0 && AllDigits(s)
    ensures ParseInt(s) == Some(DigitsValue(s))
  {
    AllDigitsTrimmed(s);
  }

  /** `int(str(n)) == n`. */
  lemma IntStrParses(n: int)
    ensures ParseInt(IntStr(n)) == Some(n)
  {
    var r := IntStr(n);
    if n >= 0 {
      DecimalValue(n);
      ParseIntDigits(r);
    } else {
      var ds := Decimal(-n);
      DecimalValue(-n);
      assert r[1..] == ds;
      assert !IsSpace(r[0]) && !IsSpace(r[|r| - 1]);
      StripTrimmed(r);
    }
  }
}

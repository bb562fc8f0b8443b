/**
 * Strings and the few Python string and regular-expression operations that the
 * migration script applies to podman output: `in`, `str.replace`, `str.split`,
 * `str.join`, `str.strip` and the `re.sub` patterns `'.*X'`, `' .*'`, `',.*'`,
 * `'_[0-9].*'` and `'^\S+ '`.  In Python's `re`, `.` matches every character but
 * a newline, so the `.*` patterns work line by line; the functions below do too.
 */
module Text {

  datatype Option<+T> = None | Some(value: T)

  /** Python's `str.isspace()`, which is also what `\s` matches in a str pattern. */
  predicate IsSpace(c: char) {
    || c == ' '
    || ('\t' <= c <= '\r')
    || ('\U{1C}' <= c <= '\U{1F}')
    || c == '\U{85}' || c == '\U{A0}' || c == '\U{1680}'
    || ('\U{2000}' <= c <= '\U{200A}')
    || c == '\U{2028}' || c == '\U{2029}' || c == '\U{202F}' || c == '\U{205F}' || c == '\U{3000}'
  }

  /** The regular-expression class `[0-9]`. */
  predicate IsDigit(c: char) {
    '0' <= c <= '9'
  }

  // ---------------------------------------------------------------------------
  // Occurrences of a substring
  // ---------------------------------------------------------------------------

  predicate OccursAt(s: string, t: string, i: nat) {
    i + |t| <= |s| && s[i..i + |t|] == t
  }

  /** Position of the first occurrence of `t` in `s` at or after `i`. */
  function IndexFrom(s: string, t: string, i: nat): (r: Option<nat>)
    ensures r.Some? ==> i <= r.value && OccursAt(s, t, r.value)
    ensures r.Some? ==> forall k: nat :: i <= k < r.value ==> !OccursAt(s, t, k)
    ensures r.None? ==> forall k: nat :: i <= k ==> !OccursAt(s, t, k)
    decreases |s| - i
  {
    if i + |t| > |s| then None
    else if s[i..i + |t|] == t then Some(i)
    else IndexFrom(s, t, i + 1)
  }

  /** Python's `s.find(t)`, as an option. */
  function IndexOf(s: string, t: string): Option<nat> {
    IndexFrom(s, t, 0)
  }

  /** Python's `t in s`. */
  predicate Contains(s: string, t: string) {
    IndexOf(s, t).Some?
  }

  /** Start of the last occurrence of `t` in `s` that begins before position `k`. */
  function LastBefore(s: string, t: string, k: nat): (r: Option<nat>)
    ensures r.Some? ==> r.value < k && OccursAt(s, t, r.value)
    ensures r.Some? ==> forall j: nat :: r.value < j < k ==> !OccursAt(s, t, j)
    ensures r.None? ==> forall j: nat :: j < k ==> !OccursAt(s, t, j)
    decreases k
  {
    if k == 0 then None
    else if OccursAt(s, t, k - 1) then Some(k - 1)
    else LastBefore(s, t, k - 1)
  }

  /** Python's `s.rfind(t)`, as an option. */
  function LastIndexOf(s: string, t: string): (r: Option<nat>)
    ensures r.Some? ==> OccursAt(s, t, r.value) && forall j: nat :: r.value < j ==> !OccursAt(s, t, j)
    ensures r.None? ==> forall j: nat :: !OccursAt(s, t, j)
  {
    LastBefore(s, t, |s| + 1)
  }

  lemma ContainsAt(s: string, t: string, i: nat)
    requires OccursAt(s, t, i)
    ensures Contains(s, t)
  {
  }

  lemma NotContains(s: string, t: string)
    requires !Contains(s, t)
    ensures forall k: nat :: !OccursAt(s, t, k)
  {
  }

  /** An occurrence that no earlier one precedes is the one `IndexOf` finds. */
  lemma IndexOfIs(s: string, t: string, i: nat)
    requires OccursAt(s, t, i) && forall k: nat :: k < i ==> !OccursAt(s, t, k)
    ensures IndexOf(s, t) == Some(i)
  {
  }

  /** An occurrence that no later one follows is the one `LastIndexOf` finds. */
  lemma LastIndexOfIs(s: string, t: string, i: nat)
    requires OccursAt(s, t, i) && forall k: nat :: i < k ==> !OccursAt(s, t, k)
    ensures LastIndexOf(s, t) == Some(i)
  {
  }

  lemma ConcatAssoc(x: string, y: string, z: string)
    ensures x + y + z == x + (y + z)
  {
  }

  lemma ConcatAssoc5(a: string, b: string, c: string, d: string, e: string)
    ensures a + b + c + d + e == a + b + (c + d + e)
  {
  }

  lemma OccursAtChar(s: string, c: char, i: nat)
    ensures OccursAt(s, [c], i) <==> i < |s| && s[i] == c
  {
    if i < |s| && s[i] == c {
      assert s[i..i + 1] == [c];
    }
  }

  /** A pattern whose first character appears only at the start of the text occurs nowhere later. */
  lemma OnlyAtStart(s: string, t: string)
    requires t != [] && s != [] && t[0] !in s[1..]
    ensures forall j: nat :: 0 < j ==> !OccursAt(s, t, j)
  {
    forall j: nat | 0 < j ensures !OccursAt(s, t, j) {
      if j + |t| <= |s| {
        assert s[j..j + |t|][0] == s[j] == s[1..][j - 1];
      }
    }
  }

  /** Text lacking one of the characters of `t` does not contain `t`. */
  lemma ContainsMissing(s: string, t: string, c: char)
    requires c in t && c !in s
    ensures !Contains(s, t)
  {
    forall k: nat ensures !OccursAt(s, t, k) {
      if k + |t| <= |s| {
        var j :| 0 <= j < |t| && t[j] == c;
        assert s[k..k + |t|][j] == s[k + j];
      }
    }
  }

  lemma ContainsChar(s: string, c: char)
    ensures Contains(s, [c]) <==> c in s
  {
    if c in s {
      var i :| 0 <= i < |s| && s[i] == c;
      OccursAtChar(s, c, i);
    }
    if Contains(s, [c]) {
      OccursAtChar(s, c, IndexOf(s, [c]).value);
    }
  }

  /** The first occurrence of a one-character string is the first position holding it. */
  lemma IndexOfChar(a: string, c: char, b: string)
    requires c !in a
    ensures IndexOf(a + [c] + b, [c]) == Some(|a|)
  {
    var s := a + [c] + b;
    OccursAtChar(s, c, |a|);
    forall k: nat | k < |a| ensures !OccursAt(s, [c], k) {
      OccursAtChar(s, c, k);
    }
    IndexOfIs(s, [c], |a|);
  }

  lemma IndexOfCharNone(a: string, c: char)
    requires c !in a
    ensures IndexOf(a, [c]) == None
  {
    ContainsChar(a, c);
  }

  // ---------------------------------------------------------------------------
  // str.replace
  // ---------------------------------------------------------------------------

  /**
   * Python's `s.replace(pat, rep)`, and `re.sub` with a literal pattern: the
   * leftmost occurrence is replaced and the scan goes on after it.
   */
  function ReplaceAll(s: string, pat: string, rep: string): string
    requires pat != []
    decreases |s|
  {
    if |s| < |pat| then s
    else if s[..|pat|] == pat then rep + ReplaceAll(s[|pat|..], pat, rep)
    else [s[0]] + ReplaceAll(s[1..], pat, rep)
  }

  function RemoveAll(s: string, pat: string): string
    requires pat != []
  {
    ReplaceAll(s, pat, "")
  }

  /** A character that is neither in the text nor in the replacement is not in the result. */
  lemma {:induction false} ReplaceKeepsOut(s: string, pat: string, rep: string, c: char)
    requires pat != []
    requires c !in s && c !in rep
    ensures c !in ReplaceAll(s, pat, rep)
    decreases |s|
  {
    if |s| < |pat| {
    } else if s[..|pat|] == pat {
      ReplaceKeepsOut(s[|pat|..], pat, rep, c);
    } else {
      ReplaceKeepsOut(s[1..], pat, rep, c);
    }
  }

  /** Replacing a character by text without it leaves none of it. */
  lemma {:induction false} ReplaceCharRemoves(s: string, c: char, rep: string)
    requires c !in rep
    ensures c !in ReplaceAll(s, [c], rep)
    decreases |s|
  {
    if |s| < 1 {
    } else if s[..1] == [c] {
      ReplaceCharRemoves(s[1..], c, rep);
    } else {
      assert s[0] != c by { assert s[..1] == [s[0]]; }
      ReplaceCharRemoves(s[1..], c, rep);
    }
  }

  lemma OccursAtShift(s: string, t: string, k: nat)
    requires s != []
    ensures OccursAt(s[1..], t, k) <==> OccursAt(s, t, k + 1)
  {
    if k + |t| <= |s[1..]| {
      assert s[1..][k..k + |t|] == s[k + 1..k + 1 + |t|];
    }
  }

  /** Text without the pattern is left as it is. */
  lemma {:induction false} ReplaceAbsent(s: string, pat: string, rep: string)
    requires pat != []
    requires forall k: nat :: !OccursAt(s, pat, k)
    ensures ReplaceAll(s, pat, rep) == s
    decreases |s|
  {
    if |s| >= |pat| {
      assert !OccursAt(s, pat, 0);
      forall k: nat ensures !OccursAt(s[1..], pat, k) {
        OccursAtShift(s, pat, k);
      }
      ReplaceAbsent(s[1..], pat, rep);
      assert [s[0]] + s[1..] == s;
    }
  }

  /** Text that lacks one of the pattern's characters is left as it is. */
  lemma ReplaceMissing(s: string, pat: string, rep: string, c: char)
    requires pat != [] && c in pat && c !in s
    ensures ReplaceAll(s, pat, rep) == s
  {
    ContainsMissing(s, pat, c);
    NotContains(s, pat);
    ReplaceAbsent(s, pat, rep);
  }

  /** Text before which the pattern cannot start passes through unchanged. */
  lemma {:induction false} ReplaceAfter(a: string, b: string, pat: string, rep: string)
    requires pat != [] && pat[0] !in a
    ensures ReplaceAll(a + b, pat, rep) == a + ReplaceAll(b, pat, rep)
    decreases |a|
  {
    if a == [] {
      assert a + b == b;
    } else {
      var s := a + b;
      if |s| >= |pat| {
        assert s[..|pat|][0] == a[0];
      }
      assert s[1..] == a[1..] + b;
      ReplaceAfter(a[1..], b, pat, rep);
      assert a + ReplaceAll(b, pat, rep) == [a[0]] + (a[1..] + ReplaceAll(b, pat, rep));
    }
  }

  /** Text in which no occurrence of the pattern starts passes through unchanged. */
  lemma {:induction false} ReplaceAfterFree(a: string, b: string, pat: string, rep: string)
    requires pat != []
    requires forall k: nat :: k < |a| ==> !OccursAt(a + b, pat, k)
    ensures ReplaceAll(a + b, pat, rep) == a + ReplaceAll(b, pat, rep)
    decreases |a|
  {
    if a == [] {
      assert a + b == b;
    } else {
      var s := a + b;
      assert !OccursAt(s, pat, 0);
      assert s[1..] == a[1..] + b;
      forall k: nat | k < |a[1..]| ensures !OccursAt(a[1..] + b, pat, k) {
        OccursAtShift(s, pat, k);
      }
      ReplaceAfterFree(a[1..], b, pat, rep);
      assert a + ReplaceAll(b, pat, rep) == [a[0]] + (a[1..] + ReplaceAll(b, pat, rep));
    }
  }

  /** Replacing one character by another: same length, changed exactly where it stood. */
  lemma {:induction false} ReplaceCharPointwise(s: string, c: char, d: char)
    ensures |ReplaceAll(s, [c], [d])| == |s|
    ensures forall i :: 0 <= i < |s| ==> ReplaceAll(s, [c], [d])[i] == if s[i] == c then d else s[i]
    decreases |s|
  {
    if |s| >= 1 {
      ReplaceCharPointwise(s[1..], c, d);
      assert s[..1] == [s[0]];
      var r := ReplaceAll(s, [c], [d]);
      var t := ReplaceAll(s[1..], [c], [d]);
      assert r == [if s[0] == c then d else s[0]] + t;
      forall i | 0 <= i < |s| ensures r[i] == if s[i] == c then d else s[i] {
        if i > 0 {
          assert r[i] == t[i - 1];
          assert s[1..][i - 1] == s[i];
        }
      }
    }
  }

  /** A one-character pattern never spans two pieces, so the pieces are rewritten apart. */
  lemma {:induction false} ReplaceCharConcat(a: string, b: string, c: char, rep: string)
    ensures ReplaceAll(a + b, [c], rep) == ReplaceAll(a, [c], rep) + ReplaceAll(b, [c], rep)
    decreases |a|
  {
    if a == [] {
      assert a + b == b;
    } else {
      assert (a + b)[..1] == a[..1];
      assert (a + b)[1..] == a[1..] + b;
      ReplaceCharConcat(a[1..], b, c, rep);
    }
  }

  // ---------------------------------------------------------------------------
  // str.split and str.join
  // ---------------------------------------------------------------------------

  /** Python's `s.split(sep)` for a non-empty separator. */
  function Split(s: string, sep: string): (r: seq<string>)
    requires sep != []
    ensures |r| >= 1
    decreases |s|
  {
    match IndexOf(s, sep)
    case None => [s]
    case Some(i) => [s[..i]] + Split(s[i + |sep|..], sep)
  }

  /** Python's `sep.join(parts)`. */
  function Join(parts: seq<string>, sep: string): string
  {
    if |parts| == 0 then ""
    else if |parts| == 1 then parts[0]
    else parts[0] + sep + Join(parts[1..], sep)
  }

  /** Joining the pieces of a split with the same separator gives the text back. */
  lemma SplitAt(s: string, sep: string, i: nat)
    requires sep != [] && IndexOf(s, sep) == Some(i)
    ensures Split(s, sep) == [s[..i]] + Split(s[i + |sep|..], sep)
  {
  }

  lemma JoinCons(x: string, tail: seq<string>, sep: string)
    requires tail != []
    ensures Join([x] + tail, sep) == x + sep + Join(tail, sep)
  {
    assert ([x] + tail)[1..] == tail;
  }

  lemma {:induction false} JoinSplit(s: string, sep: string)
    requires sep != []
    ensures Join(Split(s, sep), sep) == s
    decreases |s|
  {
    var found := IndexOf(s, sep);
    if found.Some? {
      var i := found.value;
      var rest := s[i + |sep|..];
      JoinSplit(rest, sep);
      SplitAt(s, sep, i);
      JoinCons(s[..i], Split(rest, sep), sep);
      assert s[i..i + |sep|] == sep;
      assert s == s[..i] + s[i..i + |sep|] + rest;
    }
  }

  /** No piece of a split holds the separator. */
  lemma {:induction false} SplitPiecesFree(s: string, sep: string)
    requires sep != []
    ensures forall p :: p in Split(s, sep) ==> !Contains(p, sep)
    decreases |s|
  {
    match IndexOf(s, sep)
    case None =>
    case Some(i) =>
      SplitPiecesFree(s[i + |sep|..], sep);
      forall k: nat ensures !OccursAt(s[..i], sep, k) {
        if k + |sep| <= i {
          assert !OccursAt(s, sep, k);
          assert s[..i][k..k + |sep|] == s[k..k + |sep|];
        }
      }
  }

  /** Splitting on a character at its first position. */
  lemma SplitCharCons(a: string, c: char, b: string)
    requires c !in a
    ensures Split(a + [c] + b, [c]) == [a] + Split(b, [c])
  {
    IndexOfChar(a, c, b);
    var s := a + [c] + b;
    assert s[..|a|] == a;
    assert s[|a| + 1..] == b;
  }

  /** The pieces of a split hold only characters of the text split. */
  lemma {:induction false} SplitPiecesWithout(s: string, c: char, d: char)
    requires d !in s
    ensures forall p :: p in Split(s, [c]) ==> d !in p
    decreases |s|
  {
    match IndexOf(s, [c])
    case None =>
    case Some(i) =>
      assert s == s[..i] + s[i..i + 1] + s[i + 1..];
      SplitPiecesWithout(s[i + 1..], c, d);
  }

  lemma SplitCharNone(a: string, c: char)
    requires c !in a
    ensures Split(a, [c]) == [a]
  {
    IndexOfCharNone(a, c);
  }

  // ---------------------------------------------------------------------------
  // str.strip
  // ---------------------------------------------------------------------------

  function TrimStart(s: string): (r: string)
    decreases |s|
  {
    if s != [] && IsSpace(s[0]) then TrimStart(s[1..]) else s
  }

  function TrimEnd(s: string): (r: string)
    decreases |s|
  {
    if s != [] && IsSpace(s[|s| - 1]) then TrimEnd(s[..|s| - 1]) else s
  }

  /** Python's `s.strip()`. */
  function Strip(s: string): string {
    TrimEnd(TrimStart(s))
  }

  /** Text whose ends are not white space is its own strip. */
  lemma StripUnchanged(s: string)
    requires s == [] || (!IsSpace(s[0]) && !IsSpace(s[|s| - 1]))
    ensures Strip(s) == s
  {
  }

  // ---------------------------------------------------------------------------
  // The regular expressions, line by line
  // ---------------------------------------------------------------------------

  /** One line: `re.sub('.*' + x, '', line)` drops everything through the last `x`. */
  function DropInLine(line: string, x: string): string {
    match LastIndexOf(line, x)
    case None => line
    case Some(k) => line[k + |x|..]
  }

  /** `re.sub('.*' + x, '', s)`: on every line, drop everything through the last `x` on it. */
  function DropThroughLast(s: string, x: string): string
    decreases |s|
  {
    match IndexOf(s, "\n")
    case None => DropInLine(s, x)
    case Some(i) => DropInLine(s[..i], x) + "\n" + DropThroughLast(s[i + 1..], x)
  }

  lemma DropThroughLastOneLine(s: string, x: string)
    requires '\n' !in s
    ensures DropThroughLast(s, x) == DropInLine(s, x)
  {
    IndexOfCharNone(s, '\n');
  }

  /** Where a truncating pattern `P.*` may start: `' .*'`, `',.*'` or `'_[0-9].*'`. */
  datatype Cut = AtSpace | AtComma | AtUnderscoreDigit

  predicate CutsHere(s: string, cut: Cut) {
    match cut
    case AtSpace => |s| > 0 && s[0] == ' '
    case AtComma => |s| > 0 && s[0] == ','
    case AtUnderscoreDigit => |s| > 1 && s[0] == '_' && IsDigit(s[1])
  }

  /** The text from its first newline on (empty when there is none). */
  function LineRest(s: string): (r: string)
    ensures |r| <= |s|
    ensures s != [] && s[0] != '\n' ==> |r| < |s|
    ensures r == [] || r[0] == '\n'
    ensures '\n' !in s ==> r == []
    decreases |s|
  {
    if s == [] then []
    else if s[0] == '\n' then s
    else LineRest(s[1..])
  }

  /** `re.sub(P + '.*', '', s)`: every line is cut where its first match of `P` starts. */
  function CutLines(s: string, cut: Cut): string
    decreases |s|
  {
    if s == [] then []
    else if s[0] == '\n' then "\n" + CutLines(s[1..], cut)
    else if CutsHere(s, cut) then CutLines(LineRest(s), cut)
    else [s[0]] + CutLines(s[1..], cut)
  }

  /** After cutting at the first space (comma) of each line, no space (comma) is left. */
  lemma {:induction false} CutLinesDropsChar(s: string, cut: Cut, c: char)
    requires (cut == AtSpace && c == ' ') || (cut == AtComma && c == ',')
    ensures c !in CutLines(s, cut)
    decreases |s|
  {
    if s == [] {
    } else if s[0] == '\n' {
      CutLinesDropsChar(s[1..], cut, c);
    } else if CutsHere(s, cut) {
      CutLinesDropsChar(LineRest(s), cut, c);
    } else {
      CutLinesDropsChar(s[1..], cut, c);
    }
  }

  /** A cut never introduces a newline that was not there. */
  lemma {:induction false} CutLinesOneLine(s: string, cut: Cut)
    requires '\n' !in s
    ensures '\n' !in CutLines(s, cut)
    decreases |s|
  {
    if s == [] {
    } else if CutsHere(s, cut) {
      CutLinesOneLine(LineRest(s), cut);
    } else {
      CutLinesOneLine(s[1..], cut);
    }
  }

  /**
   * On one line, text in which the pattern does not start is kept whole when the
   * pattern starts right after it (or the line ends there).
   */
  lemma {:induction false} CutLinesKeeps(a: string, b: string, cut: Cut)
    requires '\n' !in a + b
    requires forall i :: 0 <= i < |a| ==> !CutsHere((a + b)[i..], cut)
    requires b == [] || CutsHere(b, cut)
    ensures CutLines(a + b, cut) == a
    decreases |a|
  {
    if a == [] {
      assert a + b == b;
    } else {
      var s := a + b;
      assert s[0..] == s;
      assert !CutsHere(s, cut);
      forall i | 0 <= i < |a[1..]| ensures !CutsHere((a[1..] + b)[i..], cut) {
        assert (a[1..] + b)[i..] == s[i + 1..];
      }
      assert s[1..] == a[1..] + b;
      CutLinesKeeps(a[1..], b, cut);
    }
  }

  lemma {:induction false} LineRestAfter(b: string, x: string)
    requires '\n' !in b
    ensures LineRest(b + x) == LineRest(x)
    decreases |b|
  {
    if b != [] {
      assert (b + x)[1..] == b[1..] + x;
      LineRestAfter(b[1..], x);
    } else {
      assert b + x == x;
    }
  }

  /**
   * The same for a line that ends with its newline: the kept text is followed by
   * the newline and nothing else.
   */
  lemma {:induction false} CutLinesKeepsLine(a: string, b: string, cut: Cut)
    requires '\n' !in a + b
    requires forall i :: 0 <= i < |a| ==> !CutsHere((a + b + "\n")[i..], cut)
    requires b == [] || CutsHere(b + "\n", cut)
    ensures CutLines(a + b + "\n", cut) == a + "\n"
    decreases |a|
  {
    var s := a + b + "\n";
    if a == [] {
      assert s == b + "\n";
      if b == [] {
        assert CutLines(s, cut) == "\n" + CutLines([], cut);
      } else {
        assert s[0] == b[0] && b[0] != '\n';
        LineRestAfter(b, "\n");
        assert LineRest(s) == "\n";
        assert CutLines("\n", cut) == "\n" + CutLines([], cut);
      }
    } else {
      assert s[0..] == s;
      assert !CutsHere(s, cut);
      assert s[0] == a[0] && a[0] != '\n';
      forall i | 0 <= i < |a[1..]| ensures !CutsHere((a[1..] + b + "\n")[i..], cut) {
        assert (a[1..] + b + "\n")[i..] == s[i + 1..];
      }
      assert s[1..] == a[1..] + b + "\n";
      CutLinesKeepsLine(a[1..], b, cut);
      assert [a[0]] + (a[1..] + "\n") == a + "\n";
    }
  }

  /** `re.sub('.*' + key, '', s)` followed by `re.sub(' .*', '', ...)`: the word after the last `key`. */
  function ValueAfter(s: string, key: string): string {
    CutLines(DropThroughLast(s, key), AtSpace)
  }

  /** The `key` written after `pre` is the last one on the line when none starts later. */
  lemma LastKeyAt(pre: string, key: string, tail: string)
    requires OccursAt(tail, key, 0)
    requires forall j: nat :: 0 < j ==> !OccursAt(tail, key, j)
    ensures LastIndexOf(pre + tail, key) == Some(|pre|)
  {
    var s := pre + tail;
    assert s[|pre|..|pre| + |key|] == tail[..|key|];
    forall k: nat | |pre| < k ensures !OccursAt(s, key, k) {
      assert !OccursAt(tail, key, k - |pre|);
      if k + |key| <= |s| {
        assert s[k..k + |key|] == tail[k - |pre|..k - |pre| + |key|];
      }
    }
    LastIndexOfIs(s, key, |pre|);
  }

  /** On one line, dropping through the last `key` leaves what follows it. */
  lemma DropThroughKey(pre: string, key: string, rest: string)
    requires '\n' !in pre + key + rest
    requires forall j: nat :: 0 < j ==> !OccursAt(key + rest, key, j)
    ensures DropThroughLast(pre + key + rest, key) == rest
  {
    var tail := key + rest;
    var s := pre + tail;
    assert s == pre + key + rest;
    assert tail[..|key|] == key;
    LastKeyAt(pre, key, tail);
    assert '\n' !in s;
    DropThroughLastOneLine(s, key);
    calc {
      DropInLine(s, key);
      s[|pre| + |key|..];
      { assert s[|pre| + |key|..] == rest; }
      rest;
    }
  }

  /** On one line, cutting at the first space keeps a word that a space (or the end) follows. */
  lemma CutWord(v: string, post: string)
    requires '\n' !in v + post
    requires ' ' !in v
    requires post == [] || post[0] == ' '
    ensures CutLines(v + post, AtSpace) == v
  {
    forall i | 0 <= i < |v| ensures !CutsHere((v + post)[i..], AtSpace) {
      assert (v + post)[i..][0] == v[i];
    }
    CutLinesKeeps(v, post, AtSpace);
  }

  /** The word after the last `key` is exactly the word that was written there. */
  lemma ValueAfterRoundTrip(pre: string, key: string, v: string, post: string)
    requires '\n' !in pre + key + v + post
    requires ' ' !in v
    requires post == [] || post[0] == ' '
    requires forall j: nat :: 0 < j ==> !OccursAt(key + v + post, key, j)
    ensures ValueAfter(pre + key + v + post, key) == v
  {
    assert pre + key + v + post == pre + key + (v + post);
    assert key + v + post == key + (v + post);
    DropThroughKey(pre, key, v + post);
    CutWord(v, post);
  }

  /**
   * The same for a key that ends in its only space (`"network "`, `"--name "`, ...):
   * such a key cannot overlap itself, so it is enough that the rest does not hold it.
   */
  lemma ValueAfterWord(pre: string, key: string, v: string, post: string)
    requires |key| > 0 && key[|key| - 1] == ' ' && ' ' !in key[..|key| - 1]
    requires '\n' !in pre + key + v + post
    requires ' ' !in v
    requires post == [] || post[0] == ' '
    requires !Contains(v + post, key)
    ensures ValueAfter(pre + key + v + post, key) == v
  {
    var rest := v + post;
    var tail := key + v + post;
    assert tail == key + rest;
    NotContains(rest, key);
    forall j: nat | 0 < j ensures !OccursAt(tail, key, j) {
      if j < |key| {
        if j + |key| <= |tail| {
          assert tail[j..j + |key|][|key| - 1 - j] == tail[|key| - 1] == ' ';
          assert key[|key| - 1 - j] in key[..|key| - 1];
        }
      } else {
        assert !OccursAt(rest, key, j - |key|);
        if j + |key| <= |tail| {
          assert tail[j..j + |key|] == rest[j - |key|..j - |key| + |key|];
        }
      }
    }
    ValueAfterRoundTrip(pre, key, v, post);
  }

  /** The number of leading characters that are not white space. */
  function TokenLength(s: string): (k: nat)
    ensures k <= |s|
    ensures forall i :: 0 <= i < k ==> !IsSpace(s[i])
    ensures k < |s| ==> IsSpace(s[k])
    decreases |s|
  {
    if s == [] || IsSpace(s[0]) then 0 else 1 + TokenLength(s[1..])
  }

  /** `re.sub('^\S+ ', '', s)`: a leading word followed by a space is removed with the space. */
  function DropFirstToken(s: string): string {
    var k := TokenLength(s);
    if 0 < k < |s| && s[k] == ' ' then s[k + 1..] else s
  }
}

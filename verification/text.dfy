/** String operations the report generator borrows from Python's `str`:
    `strip()`, `":" in s` with `split(":", 1)`, `startswith`, `in` on
    substrings, `lower()` (as far as the header tests need it) and
    `join`.  Strings are `seq<char>` of Unicode scalar values.
 */
module Text {
  import opened Results

  /** The characters Python's `str.isspace()` accepts, which are exactly
      the ones `str.strip()` with no argument removes. */
  predicate IsSpace(c: char) {
    var n := c as int;
    || (9 <= n <= 13) || (28 <= n <= 32) || n == 0x85 || n == 0xA0
    || n == 0x1680 || (0x2000 <= n <= 0x200A) || n == 0x2028 || n == 0x2029
    || n == 0x202F || n == 0x205F || n == 0x3000
  }

  predicate AllSpace(s: string) {
    forall i :: 0 <= i < |s| ==> IsSpace(s[i])
  }

  /** Neither the first nor the last character is whitespace. */
  predicate Trimmed(s: string) {
    s == [] || (!IsSpace(s[0]) && !IsSpace(s[|s| - 1]))
  }

  /** `r` occurs in `s` at offset `a`, and everything around it is
      whitespace. */
  predicate StripsTo(s: string, a: int, r: string) {
    && 0 <= a && a + |r| <= |s|
    && s[a..a + |r|] == r
    && AllSpace(s[..a])
    && AllSpace(s[a + |r|..])
  }

  /** The first index at or after `i` that does not hold whitespace
      (or `|s|`): where `str.strip()` starts keeping characters. */
  function SkipSpaces(s: string, i: nat): (r: nat)
    requires i <= |s|
    ensures i <= r <= |s|
    decreases |s| - i
  {
    if i < |s| && IsSpace(s[i]) then SkipSpaces(s, i + 1) else i
  }

  lemma {:induction false} SkipSpacesSpec(s: string, i: nat)
    requires i <= |s|
    ensures forall k :: i <= k < SkipSpaces(s, i) ==> IsSpace(s[k])
    ensures SkipSpaces(s, i) == |s| || !IsSpace(s[SkipSpaces(s, i)])
    decreases |s| - i
  {
    if i < |s| && IsSpace(s[i]) {
      SkipSpacesSpec(s, i + 1);
    }
  }

  /** The end of `s[lo..j]` once its trailing whitespace is dropped:
      where `str.strip()` stops keeping characters. */
  function BackSpaces(s: string, lo: nat, j: nat): (r: nat)
    requires lo <= j <= |s|
    ensures lo <= r <= j
  {
    if j > lo && IsSpace(s[j - 1]) then BackSpaces(s, lo, j - 1) else j
  }

  lemma {:induction false} BackSpacesSpec(s: string, lo: nat, j: nat)
    requires lo <= j <= |s|
    ensures forall k :: BackSpaces(s, lo, j) <= k < j ==> IsSpace(s[k])
    ensures BackSpaces(s, lo, j) == lo || !IsSpace(s[BackSpaces(s, lo, j) - 1])
  {
    if j > lo && IsSpace(s[j - 1]) {
      BackSpacesSpec(s, lo, j - 1);
    }
  }

  /** Python's `str.strip()` with no argument. */
  function Strip(s: string): string
  {
    s[SkipSpaces(s, 0)..BackSpaces(s, SkipSpaces(s, 0), |s|)]
  }

  /** `str.strip()` leaves no whitespace at either end. */
  lemma StripTrimmed(s: string)
    ensures Trimmed(Strip(s))
  {
    var a := SkipSpaces(s, 0);
    var b := BackSpaces(s, a, |s|);
    SkipSpacesSpec(s, 0);
    BackSpacesSpec(s, a, |s|);
    assert a < b ==> !IsSpace(s[a]);
  }

  /** What `Strip` removes: `Strip(s)` is an infix of `s` with only
      whitespace around it, and it is empty exactly when `s` is all
      whitespace. */
  lemma StripSpec(s: string)
    ensures exists a :: StripsTo(s, a, Strip(s))
    ensures Strip(s) == [] <==> AllSpace(s)
    ensures Trimmed(Strip(s))
  {
    StripTrimmed(s);
    var a := SkipSpaces(s, 0);
    var b := BackSpaces(s, a, |s|);
    var r := Strip(s);
    SkipSpacesSpec(s, 0);
    BackSpacesSpec(s, a, |s|);
    assert r == s[a..b];
    assert AllSpace(s[..a]) by {
      forall k | 0 <= k < a ensures IsSpace(s[..a][k]) { assert s[..a][k] == s[k]; }
    }
    assert AllSpace(s[b..]) by {
      forall k | 0 <= k < |s| - b ensures IsSpace(s[b..][k]) { assert s[b..][k] == s[b + k]; }
    }
    assert StripsTo(s, a, r);
    if a < |s| {
      assert !IsSpace(s[a]);
      assert !AllSpace(s);
    } else {
      assert AllSpace(s) by {
        forall k | 0 <= k < |s| ensures IsSpace(s[k]) { }
      }
    }
  }

  /** A non-empty trimmed infix surrounded by whitespace starts at the
      first non-space character and ends at the last one. */
  lemma StripEdges(s: string, a: int, t: string)
    requires StripsTo(s, a, t) && Trimmed(t) && t != []
    ensures forall i :: 0 <= i < a ==> IsSpace(s[i])
    ensures !IsSpace(s[a]) && !IsSpace(s[a + |t| - 1])
    ensures forall i :: a + |t| <= i < |s| ==> IsSpace(s[i])
  {
    forall i | 0 <= i < a ensures IsSpace(s[i]) { assert s[i] == s[..a][i]; }
    forall i | a + |t| <= i < |s| ensures IsSpace(s[i]) { assert s[i] == s[a + |t|..][i - a - |t|]; }
    assert s[a] == t[0] && s[a + |t| - 1] == t[|t| - 1];
  }

  /** The properties `Strip` promises determine its result: any trimmed
      infix surrounded only by whitespace is the stripped string. */
  lemma {:induction false} StripUnique(s: string, a: int, t: string)
    requires StripsTo(s, a, t) && Trimmed(t)
    ensures Strip(s) == t
  {
    var r := Strip(s);
    StripSpec(s);
    var b :| StripsTo(s, b, r);
    if t == [] {
      forall i | 0 <= i < |s| ensures IsSpace(s[i]) {
        if i >= a { assert s[i] == s[a + |t|..][i - a]; }
        else { assert s[i] == s[..a][i]; }
      }
    } else {
      StripEdges(s, a, t);
      assert r != [];
      StripEdges(s, b, r);
    }
  }

  /** Stripping twice changes nothing more than stripping once. */
  lemma StripIdempotent(s: string)
    ensures Strip(Strip(s)) == Strip(s)
  {
    var r := Strip(s);
    StripTrimmed(s);
    assert r[0..|r|] == r;
    assert StripsTo(r, 0, r);
    StripUnique(r, 0, r);
  }

  /** `s.split(sep, 1)` when `sep in s`: the text before the FIRST
      occurrence of `sep` and the text after it; `None` when `sep` does
      not occur. */
  function SplitOnce(s: string, sep: char): (r: Option<(string, string)>)
    ensures r.None? <==> sep !in s
    ensures r.Some? ==> r.value.0 + [sep] + r.value.1 == s && sep !in r.value.0
  {
    if |s| == 0 then None
    else if s[0] == sep then Some(([], s[1..]))
    else
      match SplitOnce(s[1..], sep)
      case None => assert s == [s[0]] + s[1..]; None
      case Some(parts) =>
        assert [s[0]] + parts.0 + [sep] + parts.1 == [s[0]] + (parts.0 + [sep] + parts.1);
        Some(([s[0]] + parts.0, parts.1))
  }

  /** Rejoining is the only way back: a split at a separator-free prefix
      is the one `SplitOnce` finds. */
  lemma {:induction false} SplitOnceUnique(s: string, sep: char, before: string, after: string)
    requires before + [sep] + after == s && sep !in before
    ensures SplitOnce(s, sep) == Some((before, after))
  {
    if before == [] {
      assert s[0] == sep && s[1..] == after;
    } else {
      assert s == [before[0]] + (before[1..] + [sep] + after);
      assert s[0] != sep && s[1..] == before[1..] + [sep] + after;
      SplitOnceUnique(s[1..], sep, before[1..], after);
      assert [s[0]] + before[1..] == before;
    }
  }

  /** Python's `s.startswith(prefix)`. */
  predicate StartsWith(s: string, prefix: string) {
    |prefix| <= |s| && s[..|prefix|] == prefix
  }

  /** `needle` occurs somewhere in `s` at offset `i`. */
  predicate OccursAt(s: string, needle: string, i: int) {
    0 <= i && i + |needle| <= |s| && s[i..i + |needle|] == needle
  }

  /** Python's `needle in s` for strings. */
  function Contains(s: string, needle: string): (r: bool)
    ensures r <==> exists i :: OccursAt(s, needle, i)
  {
    if StartsWith(s, needle) then
      assert OccursAt(s, needle, 0);
      true
    else if |s| == 0 then
      assert forall i :: !OccursAt(s, needle, i);
      false
    else
      var r := Contains(s[1..], needle);
      assert r ==> exists i :: OccursAt(s, needle, i) by {
        if r {
          var i :| OccursAt(s[1..], needle, i);
          assert s[1..][i..i + |needle|] == s[i + 1..i + 1 + |needle|];
          assert OccursAt(s, needle, i + 1);
        }
      }
      assert (exists i :: OccursAt(s, needle, i)) ==> r by {
        if i :| OccursAt(s, needle, i) {
          assert i != 0;
          assert s[1..][i - 1..i - 1 + |needle|] == s[i..i + |needle|];
          assert OccursAt(s[1..], needle, i - 1);
        }
      }
      r
  }

  /** An ASCII capital, the only characters `AsciiLower` changes. */
  predicate IsUpper(c: char) {
    'A' <= c <= 'Z'
  }

  /** `x` and `y` are the same character, or the capital and small form
      of one ASCII letter. */
  predicate SameIgnoringCase(x: char, y: char) {
    x == y
    || (IsUpper(x) && y as int == x as int + 32)
    || (IsUpper(y) && x as int == y as int + 32)
  }

  predicate NoUpper(s: string) {
    forall i :: 0 <= i < |s| ==> !IsUpper(s[i])
  }

  function LowerChar(c: char): char {
    if IsUpper(c) then (c as int + 32) as char else c
  }

  /** `str.lower()` restricted to ASCII letters: no capital is left, each
      character stays the same letter, and everything that is not a
      capital is kept.  The only non-ASCII characters whose lower case
      contains an ASCII letter are U+0130 (to "i" plus a combining dot)
      and U+212A (to "k"); neither letter occurs in the header words the
      generator looks for. */
  function AsciiLower(s: string): (r: string)
    ensures |r| == |s| && NoUpper(r)
    ensures forall i :: 0 <= i < |s| ==> SameIgnoringCase(s[i], r[i])
    ensures forall i :: 0 <= i < |s| && !IsUpper(s[i]) ==> r[i] == s[i]
  {
    seq(|s|, i requires 0 <= i < |s| => LowerChar(s[i]))
  }

  /** A string without capitals that matches `s` letter for letter up to
      case is `AsciiLower(s)`: the two properties above pin it down. */
  lemma AsciiLowerUnique(s: string, t: string)
    requires |t| == |s| && NoUpper(t)
    requires forall i :: 0 <= i < |s| ==> SameIgnoringCase(s[i], t[i])
    ensures t == AsciiLower(s)
  {
    var r := AsciiLower(s);
    forall i | 0 <= i < |s| ensures t[i] == r[i] {
      assert SameIgnoringCase(s[i], r[i]) && !IsUpper(r[i]) && !IsUpper(t[i]);
    }
  }

  /** Lowering twice is lowering once. */
  lemma AsciiLowerIdempotent(s: string)
    ensures AsciiLower(AsciiLower(s)) == AsciiLower(s)
  {
    var r := AsciiLower(s);
    assert forall i :: 0 <= i < |r| ==> !IsUpper(r[i]);
  }

  /** `needle` occurs in `s` at offset `i` up to ASCII case. */
  predicate OccursIgnoringCase(s: string, needle: string, i: int) {
    0 <= i && i + |needle| <= |s|
    && forall j :: 0 <= j < |needle| ==> SameIgnoringCase(s[i + j], needle[j])
  }

  lemma OccursLower(s: string, needle: string, i: int)
    requires NoUpper(needle)
    ensures OccursAt(AsciiLower(s), needle, i) <==> OccursIgnoringCase(s, needle, i)
  {
    var l := AsciiLower(s);
    if 0 <= i && i + |needle| <= |s| {
      if OccursAt(l, needle, i) {
        forall j | 0 <= j < |needle| ensures SameIgnoringCase(s[i + j], needle[j]) {
          assert l[i..i + |needle|][j] == l[i + j];
        }
      }
      if OccursIgnoringCase(s, needle, i) {
        forall j | 0 <= j < |needle| ensures l[i..i + |needle|][j] == needle[j] {
          assert SameIgnoringCase(s[i + j], l[i + j]) && !IsUpper(l[i + j]);
        }
      }
    }
  }

  /** For a needle without capitals, `needle in s.lower()` holds exactly
      when the needle occurs in `s` up to ASCII case. */
  lemma ContainsIgnoringCase(s: string, needle: string)
    requires NoUpper(needle)
    ensures Contains(AsciiLower(s), needle) <==> exists i :: OccursIgnoringCase(s, needle, i)
  {
    forall i ensures OccursAt(AsciiLower(s), needle, i) <==> OccursIgnoringCase(s, needle, i) {
      OccursLower(s, needle, i);
    }
  }

  /** For a prefix without capitals, `s.lower().startswith(prefix)` holds
      exactly when `s` starts with the prefix up to ASCII case. */
  lemma StartsWithIgnoringCase(s: string, prefix: string)
    requires NoUpper(prefix)
    ensures StartsWith(AsciiLower(s), prefix) <==> OccursIgnoringCase(s, prefix, 0)
  {
    OccursLower(s, prefix, 0);
  }

  /** Python's `sep.join(parts)`. */
  function Join(sep: string, parts: seq<string>): string
  {
    if |parts| == 0 then []
    else if |parts| == 1 then parts[0]
    else parts[0] + sep + Join(sep, parts[1..])
  }

  /** Each item on its own line behind a dash: "\n- a\n- b". */
  function Bullets(items: seq<string>): string
  {
    if |items| == 0 then [] else "\n- " + items[0] + Bullets(items[1..])
  }

  /** The text a project's status cell receives: `"\n- ".join([""] + statuses)`. */
  function StatusCell(statuses: seq<string>): string
  {
    Join("\n- ", [""] + statuses)
  }

  lemma {:induction false} JoinAfterHead(head: string, rest: seq<string>)
    ensures Join("\n- ", [head] + rest) == head + Bullets(rest)
    decreases |rest|
  {
    if |rest| == 0 {
      assert [head] + rest == [head];
    } else {
      assert ([head] + rest)[1..] == [rest[0]] + rest[1..];
      JoinAfterHead(rest[0], rest[1..]);
    }
  }

  /** The status cell is the statuses in order, each as a "\n- " line;
      it is empty exactly when there are no statuses. */
  lemma StatusCellIsBullets(statuses: seq<string>)
    ensures StatusCell(statuses) == Bullets(statuses)
    ensures StatusCell(statuses) == [] <==> statuses == []
  {
    JoinAfterHead("", statuses);
    assert "" + Bullets(statuses) == Bullets(statuses);
  }
}

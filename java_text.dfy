/**
  The two pieces of the Java library the file manager leans on when it builds
  a name: `String.replace(CharSequence, CharSequence)`, which replaces every
  non-overlapping occurrence of a target from left to right, and
  `Long.toString`, the decimal text of a 64-bit signed value.
 */
module JavaText {

  /** `pat` occurs in `s` starting at index `i`. */
  predicate OccursAt(s: string, pat: string, i: nat) {
    i + |pat| <= |s| && s[i..i + |pat|] == pat
  }

  /** `pat` occurs somewhere in `s`. */
  predicate Occurs(s: string, pat: string) {
    exists i: nat :: i <= |s| && OccursAt(s, pat, i)
  }

  /** Dropping the first character shifts every occurrence one place left. */
  lemma OccursAtTail(s: string, pat: string, i: nat)
    requires |s| > 0
    ensures OccursAt(s[1..], pat, i) <==> OccursAt(s, pat, i + 1)
  {
    if i + 1 + |pat| <= |s| {
      assert s[1..][i..i + |pat|] == s[i + 1..i + 1 + |pat|];
    }
  }

  /**
    `s.replace(target, replacement)`: scanning from the left, every occurrence
    of `target` is replaced and the scan resumes after it, so occurrences never
    overlap. The length of the result is at least that of `s` whenever the
    replacement is at least as long as the target.
   */
  function Replace(s: string, target: string, replacement: string): (r: string)
    requires |target| > 0
    ensures |replacement| >= |target| ==> |r| >= |s|
    decreases |s|
  {
    if |s| < |target| then s
    else if s[..|target|] == target then replacement + Replace(s[|target|..], target, replacement)
    else [s[0]] + Replace(s[1..], target, replacement)
  }

  /** A string with no occurrence of the target comes back unchanged. */
  lemma {:induction false} ReplaceWithoutOccurrence(s: string, target: string, replacement: string)
    requires |target| > 0
    requires !Occurs(s, target)
    ensures Replace(s, target, replacement) == s
  {
    if |s| >= |target| {
      assert !OccursAt(s, target, 0);
      assert s[..|target|] != target;
      forall i: nat | i <= |s[1..]|
        ensures !OccursAt(s[1..], target, i)
      {
        OccursAtTail(s, target, i);
      }
      ReplaceWithoutOccurrence(s[1..], target, replacement);
    }
  }

  /** Where the target does not start, the scan keeps one character and moves on. */
  lemma ReplaceSkips(s: string, target: string, replacement: string)
    requires |target| > 0 && |s| >= |target|
    requires !OccursAt(s, target, 0)
    ensures Replace(s, target, replacement) == [s[0]] + Replace(s[1..], target, replacement)
  {
    assert s[..|target|] != target;
  }

  /** Where the target starts, the scan emits the replacement and resumes after the target. */
  lemma ReplaceTakes(s: string, target: string, replacement: string)
    requires |target| > 0
    requires OccursAt(s, target, 0)
    ensures Replace(s, target, replacement) == replacement + Replace(s[|target|..], target, replacement)
  {
    assert s[..|target|] == target;
  }

  /**
    Occurrences are taken from the left and never overlap: in "aaa" the target
    "aa" is found at index 0 only, and the last "a" is kept.
   */
  lemma ReplaceLeftToRight()
    ensures Replace("aaa", "aa", "b") == "ba"
  {
    assert "aaa"[..2] == "aa";
    assert "aaa"[2..] == "a";
  }

  /**
    A prefix in which no occurrence of the target starts is kept as it is, and
    the scan goes on with what follows it.
   */
  lemma {:induction false} ReplaceKeepsPlainPrefix(p: string, s: string, target: string, replacement: string)
    requires |target| > 0
    requires forall i: nat :: i < |p| ==> !OccursAt(p + s, target, i)
    ensures Replace(p + s, target, replacement) == p + Replace(s, target, replacement)
    decreases |p|
  {
    var ps := p + s;
    if |ps| < |target| {
      assert Replace(s, target, replacement) == s;
    } else if p != [] {
      ReplaceSkips(ps, target, replacement);
      assert ps[1..] == p[1..] + s;
      forall i: nat | i < |p[1..]|
        ensures !OccursAt(p[1..] + s, target, i)
      {
        OccursAtTail(ps, target, i);
      }
      ReplaceKeepsPlainPrefix(p[1..], s, target, replacement);
      assert ps[0] == p[0];
      assert p == [p[0]] + p[1..];
    } else {
      assert ps == s;
    }
  }

  /** The target alone becomes the replacement. */
  lemma ReplaceTargetAlone(target: string, replacement: string)
    requires |target| > 0
    ensures Replace(target, target, replacement) == replacement
  {
    assert target[..|target|] == target;
    assert target[|target|..] == [];
  }

  /**
    A replacement strictly longer than the target makes the result strictly
    longer than any string in which the target occurs.
   */
  lemma {:induction false} ReplaceGrows(s: string, target: string, replacement: string)
    requires |target| > 0 && |replacement| > |target|
    requires Occurs(s, target)
    ensures |Replace(s, target, replacement)| > |s|
  {
    var i: nat :| i <= |s| && OccursAt(s, target, i);
    if s[..|target|] != target {
      assert i != 0;
      OccursAtTail(s, target, i - 1);
      ReplaceGrows(s[1..], target, replacement);
    }
  }

  /** ReplaceGrows as an implication, for callers that do not know whether the target occurs. */
  lemma ReplaceGrowsWhenPresent(s: string, target: string, replacement: string)
    requires |target| > 0
    ensures Occurs(s, target) && |replacement| > |target| ==> |Replace(s, target, replacement)| > |s|
  {
    if Occurs(s, target) && |replacement| > |target| {
      ReplaceGrows(s, target, replacement);
    }
  }

  /** The character of a decimal digit. */
  function DigitChar(d: nat): (c: char)
    requires d < 10
    ensures '0' <= c <= '9'
    ensures c as int - '0' as int == d
  {
    ('0' as int + d) as char
  }

  predicate IsDigit(c: char) {
    '0' <= c <= '9'
  }

  /** The decimal digits of `n` without leading zeros ("0" for zero). */
  function DigitsText(n: nat): (s: string)
    ensures |s| >= 1
    ensures forall k :: 0 <= k < |s| ==> IsDigit(s[k])
    ensures s[0] == '0' <==> n == 0
    ensures n == 0 ==> s == "0"
    decreases n
  {
    if n < 10 then [DigitChar(n)] else DigitsText(n / 10) + [DigitChar(n % 10)]
  }

  /** `Long.toString(n)`: an optional minus sign followed by the digits of |n|. */
  function LongText(n: int): (s: string)
    ensures |s| >= 1
    ensures s[0] == '-' <==> n < 0
    ensures forall k :: (if n < 0 then 1 else 0) <= k < |s| ==> IsDigit(s[k])
  {
    if n < 0 then "-" + DigitsText(-n) else DigitsText(n)
  }

  /** The value of a string of decimal digits, the inverse of DigitsText. */
  function DigitsValue(s: string): int
    decreases |s|
  {
    if s == [] then 0 else DigitsValue(s[..|s| - 1]) * 10 + (s[|s| - 1] as int - '0' as int)
  }

  /**
    The inverse of LongText: an optional minus sign, then the value of the
    digits. Unlike `Long.parseLong` it accepts no `+` and checks neither the
    digits nor the range; it only reads back what LongText writes.
   */
  function ParseLong(s: string): int {
    if |s| > 0 && s[0] == '-' then -DigitsValue(s[1..]) else DigitsValue(s)
  }

  lemma {:induction false} DigitsRoundTrip(n: nat)
    ensures DigitsValue(DigitsText(n)) == n
    decreases n
  {
    if n >= 10 {
      DigitsRoundTrip(n / 10);
      var s := DigitsText(n);
      assert s[..|s| - 1] == DigitsText(n / 10);
    }
  }

  /** The decimal text of a value reads back as that value. */
  lemma LongTextRoundTrip(n: int)
    ensures ParseLong(LongText(n)) == n
  {
    if n < 0 {
      DigitsRoundTrip(-n);
      assert LongText(n)[1..] == DigitsText(-n);
    } else {
      DigitsRoundTrip(n);
    }
  }

  /** Different values have different decimal texts. */
  lemma LongTextInjective(a: int, b: int)
    requires a != b
    ensures LongText(a) != LongText(b)
  {
    LongTextRoundTrip(a);
    LongTextRoundTrip(b);
  }

  lemma LongTextExamples()
    ensures LongText(0) == "0"
    ensures LongText(7) == "7"
    ensures LongText(-12) == "-12"
  {
  }
}

/**
 * The JavaScript string operations the date-entry field uses: `split` on one
 * character, `padStart`, `slice`, `Number()` on digit strings and the
 * character-class filters of its regular expressions.
 */
module JsStrings {
  import opened Wrappers

  predicate IsDigit(c: char) {
    '0' <= c <= '9'
  }

  predicate AllDigits(s: string) {
    forall i :: 0 <= i < |s| ==> IsDigit(s[i])
  }

  predicate OnlyDigitsAndSlashes(s: string) {
    forall i :: 0 <= i < |s| ==> IsDigit(s[i]) || s[i] == '/'
  }

  // ---------------------------------------------------------------------------
  // split and its inverse

  /** `s.split(sep)`: the maximal separator-free pieces, empty pieces included. */
  function Split(s: string, sep: char): (parts: seq<string>)
    ensures |parts| >= 1
    ensures forall i :: 0 <= i < |parts| ==> sep !in parts[i]
    ensures |parts| == 1 + Count(s, sep)
  {
    if |s| == 0 then [""]
    else
      var rest := Split(s[1..], sep);
      if s[0] == sep then [""] + rest else [[s[0]] + rest[0]] + rest[1..]
  }

  /** Occurrences of `c` in `s`. */
  function Count(s: string, c: char): nat {
    if |s| == 0 then 0 else (if s[0] == c then 1 else 0) + Count(s[1..], c)
  }

  /** Counting distributes over concatenation. */
  lemma {:induction false} CountConcat(a: string, b: string, c: char)
    ensures Count(a + b, c) == Count(a, c) + Count(b, c)
  {
    if |a| > 0 {
      assert (a + b)[1..] == a[1..] + b;
      CountConcat(a[1..], b, c);
    } else {
      assert a + b == b;
    }
  }

  /** A character that does not occur is counted zero times. */
  lemma {:induction false} CountAbsent(s: string, c: char)
    requires c !in s
    ensures Count(s, c) == 0
  {
    if |s| > 0 {
      CountAbsent(s[1..], c);
    }
  }

  /** A character counted at least once occurs. */
  lemma CountPositive(s: string, c: char)
    requires Count(s, c) > 0
    ensures c in s
  {
    if c !in s {
      CountAbsent(s, c);
    }
  }

  /** `parts.join(sep)`. */
  function Join(parts: seq<string>, sep: char): string
    requires |parts| >= 1
  {
    if |parts| == 1 then parts[0] else parts[0] + [sep] + Join(parts[1..], sep)
  }

  /** Splitting and joining again gives back the string. */
  lemma {:induction false} JoinSplit(s: string, sep: char)
    ensures Join(Split(s, sep), sep) == s
  {
    if |s| > 0 {
      JoinSplit(s[1..], sep);
      var rest := Split(s[1..], sep);
      if s[0] == sep {
        assert ([""] + rest)[1..] == rest;
      } else {
        var parts := [[s[0]] + rest[0]] + rest[1..];
        if |rest| > 1 {
          assert parts[1..] == rest[1..];
          assert Join(rest, sep) == rest[0] + [sep] + Join(rest[1..], sep);
        }
      }
    }
  }

  /** A separator-free string is one piece. */
  lemma {:induction false} SplitNoSeparator(a: string, sep: char)
    requires sep !in a
    ensures Split(a, sep) == [a]
  {
    if |a| > 0 {
      SplitNoSeparator(a[1..], sep);
      assert [a[0]] + a[1..] == a;
    }
  }

  /** A separator-free prefix followed by the separator is split off as the first piece. */
  lemma {:induction false} SplitConcat(a: string, b: string, sep: char)
    requires sep !in a
    ensures Split(a + [sep] + b, sep) == [a] + Split(b, sep)
  {
    if |a| == 0 {
      assert (a + [sep] + b)[1..] == b;
    } else {
      assert (a + [sep] + b)[1..] == a[1..] + [sep] + b;
      SplitConcat(a[1..], b, sep);
      assert [a[0]] + a[1..] == a;
    }
  }

  /** Splitting the join of separator-free pieces gives the pieces back. */
  lemma SplitThree(a: string, b: string, c: string, sep: char)
    requires sep !in a && sep !in b && sep !in c
    ensures Split(a + [sep] + b + [sep] + c, sep) == [a, b, c]
  {
    var tail := b + [sep] + c;
    assert a + [sep] + b + [sep] + c == a + [sep] + tail;
    SplitConcat(a, tail, sep);
    SplitConcat(b, c, sep);
    SplitNoSeparator(c, sep);
    assert Split(tail, sep) == [b, c];
  }

  // ---------------------------------------------------------------------------
  // slice and padStart

  /** `s.slice(0, n)`: at most the first n characters. */
  function Take(s: string, n: nat): (r: string)
    ensures |r| == if |s| < n then |s| else n
    ensures r == s[..|r|]
  {
    if |s| <= n then s else s[..n]
  }

  /** `s.slice(n)`: everything after the first n characters. */
  function Drop(s: string, n: nat): (r: string)
    ensures Take(s, n) + r == s
  {
    if |s| <= n then "" else s[n..]
  }

  /** `s.padStart(n, c)`: `c` repeated in front up to length n; never shortens. */
  function PadStart(s: string, n: nat, c: char): (r: string)
    ensures |r| == if |s| < n then n else |s|
    ensures r[|r| - |s|..] == s
    ensures forall i :: 0 <= i < |r| - |s| ==> r[i] == c
  {
    if |s| >= n then s else [c] + PadStart(s, n - 1, c)
  }

  // ---------------------------------------------------------------------------
  // Number()

  /** Value of a decimal digit string ("" is 0). */
  function DigitsValue(s: string): (n: nat)
    requires AllDigits(s)
  {
    if |s| == 0 then 0 else 10 * DigitsValue(s[..|s| - 1]) + (s[|s| - 1] - '0') as nat
  }

  /**
   * `Number(s)` for strings of ASCII digits ("" converts to 0); every other
   * string is NaN, written None.
   */
  function ParseNumber(s: string): (n: Option<nat>)
    ensures n.Some? <==> AllDigits(s)
    ensures n.Some? && |s| > 0 && s[0] != '0' ==> n.value >= Power10(|s| - 1)
    ensures n.Some? ==> n.value < Power10(|s|)
  {
    if AllDigits(s) then DigitsBounds(s); Some(DigitsValue(s)) else None
  }

  function Power10(k: nat): (p: nat)
    ensures p >= 1
  {
    if k == 0 then 1 else 10 * Power10(k - 1)
  }

  lemma {:induction false} DigitsBounds(s: string)
    requires AllDigits(s)
    ensures DigitsValue(s) < Power10(|s|)
    ensures |s| > 0 && s[0] != '0' ==> DigitsValue(s) >= Power10(|s| - 1)
  {
    if |s| > 0 {
      var p := s[..|s| - 1];
      DigitsBounds(p);
      if |s| > 1 && s[0] != '0' {
        assert p[0] == s[0];
      }
    }
  }

  // ---------------------------------------------------------------------------
  // The regular-expression filters

  /** `s.replace(/[^\d/]/g, '')`: keep only digits and slashes. */
  function KeepDigitsAndSlashes(s: string): (r: string)
    ensures OnlyDigitsAndSlashes(r)
    ensures Digits(r) == Digits(s)
    ensures Count(r, '/') == Count(s, '/')
    ensures OnlyDigitsAndSlashes(s) ==> r == s
    ensures '/' !in s ==> AllDigits(r)
  {
    if |s| == 0 then ""
    else
      var rest := KeepDigitsAndSlashes(s[1..]);
      assert ([s[0]] + rest)[1..] == rest;
      if IsDigit(s[0]) || s[0] == '/' then [s[0]] + rest else rest
  }

  /** The filter works character by character: it distributes over concatenation. */
  lemma {:induction false} KeepDigitsAndSlashesConcat(a: string, b: string)
    ensures KeepDigitsAndSlashes(a + b) == KeepDigitsAndSlashes(a) + KeepDigitsAndSlashes(b)
  {
    if |a| > 0 {
      assert (a + b)[1..] == a[1..] + b;
      KeepDigitsAndSlashesConcat(a[1..], b);
    } else {
      assert a + b == b;
    }
  }

  /** `s.replace(/\//g, '')` on digits and slashes, or more generally the digits of `s` in order. */
  function Digits(s: string): (r: string)
    ensures AllDigits(r)
    ensures |r| <= |s|
    ensures forall c :: IsDigit(c) ==> Count(r, c) == Count(s, c)
  {
    if |s| == 0 then ""
    else
      var rest := Digits(s[1..]);
      assert ([s[0]] + rest)[1..] == rest;
      if IsDigit(s[0]) then [s[0]] + rest else rest
  }

  /** Taking the digits commutes with concatenation. */
  lemma {:induction false} DigitsConcat(a: string, b: string)
    ensures Digits(a + b) == Digits(a) + Digits(b)
  {
    if |a| > 0 {
      assert (a + b)[1..] == a[1..] + b;
      DigitsConcat(a[1..], b);
    } else {
      assert a + b == b;
    }
  }

  /** Only digits and slashes in a concatenation exactly when in both halves. */
  lemma OnlyDigitsAndSlashesConcat(a: string, b: string)
    ensures OnlyDigitsAndSlashes(a + b) <==> OnlyDigitsAndSlashes(a) && OnlyDigitsAndSlashes(b)
  {
    if OnlyDigitsAndSlashes(a + b) {
      forall i | 0 <= i < |b| ensures IsDigit(b[i]) || b[i] == '/' {
        assert b[i] == (a + b)[|a| + i];
      }
      forall i | 0 <= i < |a| ensures IsDigit(a[i]) || a[i] == '/' {
        assert a[i] == (a + b)[i];
      }
    }
  }

  /** A digit string is its own digits. */
  lemma {:induction false} DigitsOfDigits(s: string)
    requires AllDigits(s)
    ensures Digits(s) == s
  {
    if |s| > 0 {
      DigitsOfDigits(s[1..]);
    }
  }
}

/** String and byte-string operations the source takes from its standard
    libraries (Kotlin `String`, Go `bytes`/`strings`, Python `list`), each
    with the semantics of the library call it stands for. */
module Text {
  import opened Wrappers

  /* ---------- prefixes, suffixes, search ---------- */

  /** Kotlin `startsWith`, Go `strings.HasPrefix`. */
  predicate StartsWith<T(==)>(s: seq<T>, prefix: seq<T>) {
    |prefix| <= |s| && s[..|prefix|] == prefix
  }

  predicate EndsWith<T(==)>(s: seq<T>, suffix: seq<T>) {
    |suffix| <= |s| && s[|s| - |suffix|..] == suffix
  }

  /** A concatenation starts with its first part, ends with its second,
      and what follows the first part is the second. */
  lemma PrefixThenRest<T>(a: seq<T>, b: seq<T>)
    ensures StartsWith(a + b, a) && EndsWith(a + b, b) && (a + b)[|a|..] == b
  {
    assert (a + b)[..|a|] == a;
  }

  /** `sub` occurs in `s` starting at position `i`. */
  predicate OccursAt<T(==)>(s: seq<T>, sub: seq<T>, i: int) {
    0 <= i && i + |sub| <= |s| && s[i..i + |sub|] == sub
  }

  /** The first position at or after `from` where `sub` occurs
      (Kotlin `indexOf(sub, from)`), or None. */
  function IndexOfFrom<T(==)>(s: seq<T>, sub: seq<T>, from: nat): (r: Option<nat>)
    ensures r.Some? ==> from <= r.value && OccursAt(s, sub, r.value)
    ensures r.Some? ==> forall j :: from <= j < r.value ==> !OccursAt(s, sub, j)
    ensures r.None? ==> forall j :: from <= j ==> !OccursAt(s, sub, j)
    decreases |s| - from
  {
    if from + |sub| > |s| then None
    else if s[from..from + |sub|] == sub then Some(from)
    else IndexOfFrom(s, sub, from + 1)
  }

  /** Kotlin `contains`, Go `strings.Contains`. */
  predicate Contains<T(==)>(s: seq<T>, sub: seq<T>) {
    IndexOfFrom(s, sub, 0).Some?
  }

  lemma ContainsIff<T>(s: seq<T>, sub: seq<T>)
    ensures Contains(s, sub) <==> exists i :: OccursAt(s, sub, i)
  {
    if !Contains(s, sub) {
      forall i ensures !OccursAt(s, sub, i) {
        if i >= 0 {
          assert !OccursAt(s, sub, i);
        }
      }
    }
  }

  /** Kotlin `lastIndexOf(c)`: the last position holding `c`, or None. */
  function LastIndexOf<T(==)>(s: seq<T>, c: T): (r: Option<nat>)
    ensures r.Some? ==> r.value < |s| && s[r.value] == c
    ensures r.Some? ==> forall j :: r.value < j < |s| ==> s[j] != c
    ensures r.None? ==> c !in s
  {
    if |s| == 0 then None
    else if s[|s| - 1] == c then Some(|s| - 1)
    else LastIndexOf(s[..|s| - 1], c)
  }

  /** Kotlin `removePrefix`. */
  function RemovePrefix<T(==)>(s: seq<T>, prefix: seq<T>): (r: seq<T>)
    ensures StartsWith(s, prefix) ==> prefix + r == s
    ensures !StartsWith(s, prefix) ==> r == s
  {
    if StartsWith(s, prefix) then s[|prefix|..] else s
  }

  /** Kotlin `removeSurrounding(d)`: strips `d` from both ends only when
      the string is long enough to hold both copies and has both. */
  function RemoveSurrounding<T(==)>(s: seq<T>, d: seq<T>): (r: seq<T>)
    ensures |s| >= 2 * |d| && StartsWith(s, d) && EndsWith(s, d) ==> d + r + d == s
    ensures !(|s| >= 2 * |d| && StartsWith(s, d) && EndsWith(s, d)) ==> r == s
  {
    if |s| >= 2 * |d| && StartsWith(s, d) && EndsWith(s, d) then s[|d|..|s| - |d|] else s
  }

  /* ---------- replacement ---------- */

  /** Replaces every non-overlapping occurrence of `pat`, scanning left to
      right: Kotlin `String.replace(String, String)`, Go `strings.ReplaceAll`
      and `bytes.Replace(.., -1)` for a non-empty pattern. */
  function ReplaceAll<T(==)>(s: seq<T>, pat: seq<T>, rep: seq<T>): seq<T>
    requires |pat| > 0
    decreases |s|
  {
    if |s| < |pat| then s
    else if s[..|pat|] == pat then rep + ReplaceAll(s[|pat|..], pat, rep)
    else [s[0]] + ReplaceAll(s[1..], pat, rep)
  }

  /** With a pattern and replacement of equal length the result is exactly
      as long as the input. */
  lemma {:induction false} ReplaceAllKeepsLength<T>(s: seq<T>, pat: seq<T>, rep: seq<T>)
    requires |pat| > 0 && |pat| == |rep|
    ensures |ReplaceAll(s, pat, rep)| == |s|
    decreases |s|
  {
    if |s| < |pat| {
    } else if s[..|pat|] == pat {
      ReplaceAllKeepsLength(s[|pat|..], pat, rep);
    } else {
      ReplaceAllKeepsLength(s[1..], pat, rep);
    }
  }

  /** Removing a one-element pattern leaves no copy of it behind. */
  lemma {:induction false} ReplaceAllRemovesChar<T>(s: seq<T>, c: T)
    ensures c !in ReplaceAll(s, [c], [])
    ensures forall x :: x in ReplaceAll(s, [c], []) ==> x in s
    decreases |s|
  {
    if |s| >= 1 {
      if s[..1] == [c] {
        ReplaceAllRemovesChar(s[1..], c);
      } else {
        ReplaceAllRemovesChar(s[1..], c);
        assert s[0] != c;
      }
    }
  }

  /** A string with no occurrence of the pattern is left unchanged. */
  lemma {:induction false} ReplaceAllNoOccurrence<T>(s: seq<T>, pat: seq<T>, rep: seq<T>)
    requires |pat| > 0
    requires forall i :: !OccursAt(s, pat, i)
    ensures ReplaceAll(s, pat, rep) == s
    decreases |s|
  {
    if |s| >= |pat| {
      assert !OccursAt(s, pat, 0);
      forall i ensures !OccursAt(s[1..], pat, i) {
        if 0 <= i && i + |pat| <= |s| - 1 {
          assert s[1..][i..i + |pat|] == s[i + 1..i + 1 + |pat|];
          assert !OccursAt(s, pat, i + 1);
        }
      }
      ReplaceAllNoOccurrence(s[1..], pat, rep);
    }
  }

  /* ---------- splitting ---------- */

  /** Kotlin `split(c)` for a one-character delimiter: every field is
      kept, empty ones included, so the result is never empty. */
  function Split<T(==)>(s: seq<T>, sep: T): (r: seq<seq<T>>)
    ensures |r| >= 1
    ensures forall k :: 0 <= k < |r| ==> sep !in r[k]
    decreases |s|
  {
    if |s| == 0 then [[]]
    else
      var rest := Split(s[1..], sep);
      if s[0] == sep then [[]] + rest
      else [[s[0]] + rest[0]] + rest[1..]
  }

  /** The inverse of `Split`: fields glued back with the delimiter. */
  function Join<T>(parts: seq<seq<T>>, sep: T): seq<T>
    requires |parts| >= 1
  {
    if |parts| == 1 then parts[0] else parts[0] + [sep] + Join(parts[1..], sep)
  }

  lemma {:induction false} SplitJoin<T>(s: seq<T>, sep: T)
    ensures Join(Split(s, sep), sep) == s
    decreases |s|
  {
    if |s| > 0 {
      SplitJoin(s[1..], sep);
      var rest := Split(s[1..], sep);
      if s[0] == sep {
        assert Split(s, sep)[1..] == rest;
      } else {
        var r := Split(s, sep);
        assert r[0] == [s[0]] + rest[0];
        if |rest| == 1 {
        } else {
          assert r[1..] == rest[1..];
        }
      }
    }
  }

  /** Splitting a string that lacks the delimiter yields the string alone. */
  lemma {:induction false} SplitNoSep<T>(s: seq<T>, sep: T)
    requires sep !in s
    ensures Split(s, sep) == [s]
    decreases |s|
  {
    if |s| > 0 {
      assert s[0] in s;
      SplitNoSep(s[1..], sep);
      assert [s[0]] + s[1..] == s;
    }
  }

  /** Splitting `a + [sep] + b` where `a` lacks the delimiter puts `a` first. */
  lemma {:induction false} SplitAt<T>(a: seq<T>, sep: T, b: seq<T>)
    requires sep !in a
    ensures Split(a + [sep] + b, sep) == [a] + Split(b, sep)
    decreases |a|
  {
    if |a| == 0 {
      assert (a + [sep] + b)[1..] == b;
    } else {
      var s := a + [sep] + b;
      assert s[0] == a[0] && a[0] in a;
      assert s[1..] == a[1..] + [sep] + b;
      SplitAt(a[1..], sep, b);
      assert [a[0]] + a[1..] == a;
    }
  }

  /** Kotlin `dropLastWhile { it.isEmpty() }`. */
  function DropTrailingEmpty<T>(parts: seq<seq<T>>): (r: seq<seq<T>>)
    ensures r <= parts
    ensures |r| > 0 ==> r[|r| - 1] != []
    ensures forall k :: |r| <= k < |parts| ==> parts[k] == []
  {
    if |parts| == 0 then []
    else if parts[|parts| - 1] == [] then DropTrailingEmpty(parts[..|parts| - 1])
    else parts
  }

  /* ---------- decimal numbers ---------- */

  predicate IsDigit(c: char) { '0' <= c <= '9' }

  /** Java/Kotlin `\d+`: one or more ASCII digits. */
  predicate IsDigits(s: string) {
    |s| > 0 && forall i :: 0 <= i < |s| ==> IsDigit(s[i])
  }

  function DigitChar(d: nat): (c: char)
    requires d < 10
    ensures IsDigit(c) && c as int - '0' as int == d
  {
    (('0' as int) + d) as char
  }

  /** Kotlin `Int.toString()` for non-negative numbers: shortest decimal form. */
  function NatToString(n: nat): (r: string)
    ensures IsDigits(r)
    ensures r[0] == '0' <==> n == 0
    ensures n == 0 ==> r == "0"
    decreases n
  {
    if n < 10 then [DigitChar(n)] else NatToString(n / 10) + [DigitChar(n % 10)]
  }

  /** Kotlin `Int.toString()` including the sign. */
  function IntToString(i: int): (r: string)
    ensures |r| >= 1
    ensures i < 0 <==> r[0] == '-'
  {
    if i < 0 then "-" + NatToString(-i) else NatToString(i)
  }

  /** The value of a string of decimal digits. */
  function DigitsValue(s: string): nat
    requires forall i :: 0 <= i < |s| ==> IsDigit(s[i])
  {
    if |s| == 0 then 0
    else DigitsValue(s[..|s| - 1]) * 10 + DigitValue(s[|s| - 1])
  }

  function DigitValue(c: char): (d: nat)
    requires IsDigit(c)
    ensures d < 10
  {
    c as int - '0' as int
  }

  lemma {:induction false} DigitsValueOfNatToString(n: nat)
    ensures DigitsValue(NatToString(n)) == n
    decreases n
  {
    if n >= 10 {
      var a := NatToString(n / 10);
      var s := a + [DigitChar(n % 10)];
      assert s[..|s| - 1] == a;
      DigitsValueOfNatToString(n / 10);
    }
  }

  /** Decimal printing is injective. */
  lemma NatToStringInjective(n: nat, m: nat)
    requires NatToString(n) == NatToString(m)
    ensures n == m
  {
    DigitsValueOfNatToString(n);
    DigitsValueOfNatToString(m);
  }

  /** Canonical decimal form as Java's `0|[1-9]\d*` recognises it. */
  predicate IsCanonicalDecimal(s: string) {
    IsDigits(s) && (s[0] == '0' ==> |s| == 1)
  }

  /** Every canonical decimal string is the printed form of its value. */
  lemma {:induction false} NatToStringOfDigitsValue(s: string)
    requires IsCanonicalDecimal(s)
    ensures NatToString(DigitsValue(s)) == s
    decreases |s|
  {
    if |s| == 1 {
    } else {
      var a := s[..|s| - 1];
      assert IsCanonicalDecimal(a) by {
        assert a[0] == s[0];
      }
      NatToStringOfDigitsValue(a);
      DigitsPositive(a);
      assert s == a + [s[|s| - 1]];
    }
  }

  /** A canonical decimal string of two or more digits has value at least 10. */
  lemma {:induction false} DigitsPositive(s: string)
    requires IsCanonicalDecimal(s) && s[0] != '0'
    ensures DigitsValue(s) >= 1
    decreases |s|
  {
    if |s| > 1 {
      var a := s[..|s| - 1];
      assert a[0] == s[0];
      DigitsPositive(a);
    }
  }

  /* ---------- character classes ---------- */

  /** ASCII upper-to-lower case mapping. */
  function ToLowerAscii(s: string): (r: string)
    ensures |r| == |s|
    ensures forall i :: 0 <= i < |s| ==> (if 'A' <= s[i] <= 'Z' then r[i] as int == s[i] as int + 32 else r[i] == s[i])
  {
    seq(|s|, i requires 0 <= i < |s| => if 'A' <= s[i] <= 'Z' then (s[i] as int + 32) as char else s[i])
  }

  /* ---------- bytes ---------- */

  /** An octet. */
  type byte = b: int | 0 <= b < 256

  /** The bytes of a text: each character's code point, which for the
      ASCII texts of the source is exactly its UTF-8 encoding. */
  function Ascii(s: string): (r: seq<byte>)
    ensures |r| == |s|
    ensures forall i :: 0 <= i < |s| ==> r[i] == (s[i] as int) % 256
  {
    seq(|s|, i requires 0 <= i < |s| => (s[i] as int) % 256)
  }

  lemma AsciiAppend(a: string, b: string)
    ensures Ascii(a + b) == Ascii(a) + Ascii(b)
  {
  }

  /** Concatenation of a sequence of byte strings. */
  function Flatten<T>(parts: seq<seq<T>>): seq<T> {
    if |parts| == 0 then [] else parts[0] + Flatten(parts[1..])
  }

  lemma {:induction false} FlattenAppend<T>(a: seq<seq<T>>, b: seq<seq<T>>)
    ensures Flatten(a + b) == Flatten(a) + Flatten(b)
    decreases |a|
  {
    if |a| > 0 {
      assert (a + b)[0] == a[0];
      assert (a + b)[1..] == a[1..] + b;
      FlattenAppend(a[1..], b);
    } else {
      assert a + b == b;
    }
  }

  /* ---------- ordering ---------- */

  /** Kotlin `String.compareTo` read as "not greater": character by
      character, the first difference decides, and a proper prefix comes
      first. */
  predicate StrLe(a: string, b: string)
    decreases |a|
  {
    if |a| == 0 then true
    else if |b| == 0 then false
    else if a[0] != b[0] then a[0] < b[0]
    else StrLe(a[1..], b[1..])
  }

  lemma {:induction false} StrLeTotal(a: string, b: string)
    ensures StrLe(a, b) || StrLe(b, a)
    decreases |a|
  {
    if |a| > 0 && |b| > 0 && a[0] == b[0] {
      StrLeTotal(a[1..], b[1..]);
    }
  }

  lemma {:induction false} StrLeAntisymmetric(a: string, b: string)
    requires StrLe(a, b) && StrLe(b, a)
    ensures a == b
    decreases |a|
  {
    if |a| > 0 {
      StrLeAntisymmetric(a[1..], b[1..]);
      assert a == [a[0]] + a[1..];
      assert b == [b[0]] + b[1..];
    }
  }

  lemma {:induction false} StrLeTransitive(a: string, b: string, c: string)
    requires StrLe(a, b) && StrLe(b, c)
    ensures StrLe(a, c)
    decreases |a|
  {
    if |a| > 0 && |b| > 0 && |c| > 0 && a[0] == b[0] && b[0] == c[0] {
      StrLeTransitive(a[1..], b[1..], c[1..]);
    }
  }
}

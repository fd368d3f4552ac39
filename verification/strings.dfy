/** String operations the script relies on, with PHP's semantics:
    `str_replace` with a single search string, prefix tests and a
    split on one separator character (the inverse used to read back the
    coordinate text). */
module Strings {

  /** ASCII lower-casing, the only case folding PCRE's caseless flag and
      these literals involve. */
  function LowerAscii(c: char): char {
    if 'A' <= c <= 'Z' then (c as int + 32) as char else c
  }

  /** `s` ends with `suffix` (given in lower case), ignoring ASCII case. */
  predicate EndsWithIgnoringCase(s: string, suffix: string) {
    |suffix| <= |s| &&
    forall i :: 0 <= i < |suffix| ==> LowerAscii(s[|s| - |suffix| + i]) == suffix[i]
  }

  predicate StartsWith(s: string, prefix: string) {
    |prefix| <= |s| && s[..|prefix|] == prefix
  }

  /** `needle` occurs in `s` starting at index `j`. */
  predicate OccursAt(s: string, needle: string, j: nat) {
    j + |needle| <= |s| && s[j..j + |needle|] == needle
  }

  predicate Occurs(s: string, needle: string) {
    exists j: nat | j <= |s| :: OccursAt(s, needle, j)
  }

  /** PHP `str_replace(needle, rep, s)`: the subject is scanned from left to
      right and every non-overlapping occurrence of `needle` is replaced by
      `rep`; the replacement text is never scanned again. An empty needle
      leaves the subject unchanged. */
  function ReplaceAll(s: string, needle: string, rep: string): (r: string)
    ensures |needle| == |rep| ==> |r| == |s|
    decreases |s|
  {
    if |needle| == 0 || |s| == 0 then s
    else if StartsWith(s, needle) then rep + ReplaceAll(s[|needle|..], needle, rep)
    else [s[0]] + ReplaceAll(s[1..], needle, rep)
  }

  /** Replacing a needle that does not occur is the identity. */
  lemma {:induction false} ReplaceAllAbsent(s: string, needle: string, rep: string)
    requires !Occurs(s, needle)
    ensures ReplaceAll(s, needle, rep) == s
    decreases |s|
  {
    if |needle| == 0 || |s| == 0 {
    } else {
      assert !OccursAt(s, needle, 0);
      assert !Occurs(s[1..], needle) by {
        if Occurs(s[1..], needle) {
          var j: nat :| j <= |s[1..]| && OccursAt(s[1..], needle, j);
          assert s[1..][j..j + |needle|] == s[j + 1..j + 1 + |needle|];
          assert OccursAt(s, needle, j + 1);
        }
      }
      ReplaceAllAbsent(s[1..], needle, rep);
    }
  }

  /** A needle whose first character is missing from `s` does not occur. */
  lemma AbsentFirstChar(s: string, needle: string)
    requires |needle| > 0 && needle[0] !in s
    ensures !Occurs(s, needle)
  {
    forall j: nat | j <= |s|
      ensures !OccursAt(s, needle, j)
    {
      if j + |needle| <= |s| {
        assert s[j] in s;
        assert s[j..j + |needle|][0] != needle[0];
      }
    }
  }

  /** A subject that starts with the needle loses that occurrence and the
      scan resumes right after it. */
  lemma ReplaceAllLeading(needle: string, rest: string, rep: string)
    requires |needle| > 0
    ensures ReplaceAll(needle + rest, needle, rep) == rep + ReplaceAll(rest, needle, rep)
  {
    var s := needle + rest;
    assert s[..|needle|] == needle;
    assert s[|needle|..] == rest;
  }

  /** Replacing one character by another acts character by character. */
  lemma {:induction false} ReplaceCharPointwise(s: string, a: char, b: char)
    ensures |ReplaceAll(s, [a], [b])| == |s|
    ensures forall i :: 0 <= i < |s| ==>
              ReplaceAll(s, [a], [b])[i] == (if s[i] == a then b else s[i])
    decreases |s|
  {
    if |s| > 0 {
      ReplaceCharPointwise(s[1..], a, b);
      var r := ReplaceAll(s, [a], [b]);
      if StartsWith(s, [a]) {
        assert s[0] == a;
        assert r == [b] + ReplaceAll(s[1..], [a], [b]);
      } else {
        assert r == [s[0]] + ReplaceAll(s[1..], [a], [b]);
      }
    }
  }

  /** The pieces of `s` between occurrences of `sep`, in order; there is
      always at least one piece. This is the inverse that joining with `sep`
      is checked against. */
  function Split(s: string, sep: char): (parts: seq<string>)
    ensures |parts| >= 1
    decreases |s|
  {
    if |s| == 0 then [[]]
    else
      var rest := Split(s[1..], sep);
      if s[0] == sep then [[]] + rest
      else [[s[0]] + rest[0]] + rest[1..]
  }

  /** A piece free of the separator is read back whole, and splitting resumes
      after the separator that ends it. */
  lemma {:induction false} SplitPiece(piece: string, sep: char, rest: string)
    requires sep !in piece
    ensures Split(piece + [sep] + rest, sep) == [piece] + Split(rest, sep)
    decreases |piece|
  {
    if |piece| == 0 {
      assert piece + [sep] + rest == [sep] + rest;
      assert ([sep] + rest)[1..] == rest;
    } else {
      var s := piece + [sep] + rest;
      assert s[0] == piece[0];
      assert s[1..] == piece[1..] + [sep] + rest;
      SplitPiece(piece[1..], sep, rest);
      assert [piece[0]] + piece[1..] == piece;
    }
  }

  /** A separator-free string splits into itself. */
  lemma {:induction false} SplitWhole(s: string, sep: char)
    requires sep !in s
    ensures Split(s, sep) == [s]
    decreases |s|
  {
    if |s| > 0 {
      SplitWhole(s[1..], sep);
      assert [s[0]] + s[1..] == s;
    }
  }

}

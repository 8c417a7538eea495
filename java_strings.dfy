/** The few Java and Apache Commons string operations the request gate relies on:
    `String.equalsIgnoreCase` (ASCII case folding only), `String.startsWith`,
    `StringUtils.isNotEmpty` and `String.split` on a single-character separator
    with the default limit of zero, followed by an array index. */
module JavaStrings {
  import opened Wrappers

  /** `Character.toUpperCase` restricted to ASCII: only 'a'..'z' change. */
  function AsciiUpper(c: char): char
  {
    if 'a' <= c <= 'z' then (c as int - 32) as char else c
  }

  /** `Character.toLowerCase` restricted to ASCII: only 'A'..'Z' change. */
  function AsciiLower(c: char): char
  {
    if 'A' <= c <= 'Z' then (c as int + 32) as char else c
  }

  /** `a.equalsIgnoreCase(b)`: same length and the same characters up to case. */
  predicate EqualsIgnoreCase(a: string, b: string)
  {
    |a| == |b| && forall i :: 0 <= i < |a| ==> AsciiUpper(a[i]) == AsciiUpper(b[i])
  }

  predicate IsUpperWord(w: string)
  {
    forall i :: 0 <= i < |w| ==> 'A' <= w[i] <= 'Z'
  }

  /** A character folds to an upper-case letter exactly when it is that letter
      or its lower-case partner. */
  lemma AsciiUpperPreimage(c: char, u: char)
    requires 'A' <= u <= 'Z'
    ensures AsciiUpper(c) == u <==> c == u || c == AsciiLower(u)
  {
  }

  /** Matching an upper-case word ignoring case accepts exactly the spellings
      that pick, letter by letter, the upper- or the lower-case form. */
  lemma EqualsIgnoreCaseUpperWord(w: string, m: string)
    requires IsUpperWord(w)
    ensures EqualsIgnoreCase(w, m) <==>
              |m| == |w| && forall i :: 0 <= i < |w| ==> m[i] == w[i] || m[i] == AsciiLower(w[i])
  {
    if |m| == |w| {
      forall i | 0 <= i < |w|
        ensures AsciiUpper(w[i]) == AsciiUpper(m[i]) <==> m[i] == w[i] || m[i] == AsciiLower(w[i])
      {
        AsciiUpperPreimage(m[i], w[i]);
      }
    }
  }

  /** `s.startsWith(prefix)`. */
  predicate StartsWith(s: string, prefix: string)
  {
    |prefix| <= |s| && s[..|prefix|] == prefix
  }

  /** `StringUtils.isNotEmpty(s)` for a non-null `s`. */
  predicate IsNotEmpty(s: string)
  {
    |s| > 0
  }

  /** `s.indexOf(c)`, with "not found" reported as `|s|` instead of -1. */
  function IndexOf(s: string, c: char): (i: nat)
    ensures i <= |s|
    ensures c !in s[..i]
    ensures i < |s| ==> s[i] == c
  {
    if |s| == 0 || s[0] == c then 0 else 1 + IndexOf(s[1..], c)
  }

  /** `IndexOf` is pinned down by its contract: the first occurrence, or `|s|`. */
  lemma IndexOfUnique(s: string, c: char, j: nat)
    requires j <= |s| && c !in s[..j] && (j < |s| ==> s[j] == c)
    ensures IndexOf(s, c) == j
  {
  }

  /** The fields `String.split` collects before it trims: the text before each
      occurrence of `sep`, then the text after the last one. */
  function SplitAll(s: string, sep: char): (fields: seq<string>)
    ensures |fields| >= 1
    ensures |fields| == 1 <==> sep !in s
    ensures fields[0] == s[..IndexOf(s, sep)]
    ensures forall k :: 0 <= k < |fields| ==> sep !in fields[k]
    decreases |s|
  {
    var i := IndexOf(s, sep);
    if i == |s| then [s] else [s[..i]] + SplitAll(s[i + 1..], sep)
  }

  /** What `String.split` does with limit zero: trailing empty strings are removed. */
  function DropTrailingEmpty(fields: seq<string>): (r: seq<string>)
    ensures |r| <= |fields| && r == fields[..|r|]
    ensures forall k :: |r| <= k < |fields| ==> fields[k] == ""
    ensures r == [] || r[|r| - 1] != ""
  {
    if |fields| > 0 && fields[|fields| - 1] == "" then DropTrailingEmpty(fields[..|fields| - 1])
    else fields
  }

  /** `s.split(String.valueOf(sep))` for a separator that is not a regular
      expression metacharacter (such as the space): with no occurrence of `sep`
      the result is `{s}` unchanged, otherwise every field with the trailing
      empty ones removed. */
  function Split(s: string, sep: char): seq<string>
  {
    var fields := SplitAll(s, sep);
    if |fields| == 1 then [s] else DropTrailingEmpty(fields)
  }

  /** Java array indexing `parts[i]`: `None` is `ArrayIndexOutOfBoundsException`. */
  function Element(parts: seq<string>, i: nat): Option<string>
  {
    if i < |parts| then Some(parts[i]) else None
  }

  /** Joins fields with the separator between them; the inverse of `SplitAll`. */
  function JoinWith(fields: seq<string>, sep: char): string
    requires |fields| >= 1
  {
    if |fields| == 1 then fields[0] else fields[0] + [sep] + JoinWith(fields[1..], sep)
  }

  lemma JoinWithCons(head: string, tail: seq<string>, sep: char)
    requires |tail| >= 1
    ensures JoinWith([head] + tail, sep) == head + [sep] + JoinWith(tail, sep)
  {
    assert ([head] + tail)[1..] == tail;
  }

  lemma SplitAround(s: string, i: nat)
    requires i < |s|
    ensures s[..i] + [s[i]] + s[i + 1..] == s
  {
  }

  /** Splitting at every separator loses nothing: joining the fields back gives `s`. */
  lemma {:induction false} SplitAllJoin(s: string, sep: char)
    ensures JoinWith(SplitAll(s, sep), sep) == s
    decreases |s|
  {
    var i := IndexOf(s, sep);
    if i < |s| {
      var rest := s[i + 1..];
      var tail := SplitAll(rest, sep);
      assert SplitAll(s, sep) == [s[..i]] + tail;
      SplitAllJoin(rest, sep);
      JoinWithCons(s[..i], tail, sep);
      SplitAround(s, i);
    }
  }

  predicate OnlySeparators(t: string, sep: char)
  {
    forall j :: 0 <= j < |t| ==> t[j] == sep
  }

  predicate AllEmpty(fields: seq<string>)
  {
    forall k :: 0 <= k < |fields| ==> fields[k] == ""
  }

  /** Every field of `SplitAll(t)` is empty exactly when `t` holds nothing but separators. */
  lemma {:induction false} AllFieldsEmpty(t: string, sep: char)
    ensures OnlySeparators(t, sep) <==> AllEmpty(SplitAll(t, sep))
    decreases |t|
  {
    var i := IndexOf(t, sep);
    var fields := SplitAll(t, sep);
    if i == |t| {
      assert fields == [t];
      if |t| > 0 {
        assert t[0] in t[..i];
      }
    } else {
      var rest := t[i + 1..];
      var tail := SplitAll(rest, sep);
      AllFieldsEmpty(rest, sep);
      assert fields == [t[..i]] + tail;
      assert forall k :: 0 <= k < |tail| ==> tail[k] == fields[k + 1];
      if OnlySeparators(t, sep) {
        assert OnlySeparators(rest, sep) by {
          forall j | 0 <= j < |rest| ensures rest[j] == sep {
            assert rest[j] == t[i + 1 + j];
          }
        }
        forall k | 0 <= k < |fields| ensures fields[k] == "" {
          if k > 0 {
            assert fields[k] == tail[k - 1];
          }
        }
      }
      if AllEmpty(fields) {
        assert fields[0] == "";
        assert i == 0;
        assert OnlySeparators(rest, sep) by {
          forall k | 0 <= k < |tail| ensures tail[k] == "" {
            assert tail[k] == fields[k + 1];
          }
        }
        forall j | 0 <= j < |t| ensures t[j] == sep {
          if j > 0 {
            assert t[j] == rest[j - 1];
          }
        }
      }
    }
  }

  /** A direct reading of element 1 of `s.split(sep)`: the text between the first
      separator and the next one (or the end), provided something other than
      separators follows the first separator; `None` otherwise. */
  function SecondField(s: string, sep: char): Option<string>
  {
    var p := IndexOf(s, sep);
    if p == |s| then None
    else
      var t := s[p + 1..];
      if OnlySeparators(t, sep) then None else Some(t[..IndexOf(t, sep)])
  }

  /** `s.split(sep)[1]` agrees with `SecondField`: it is out of bounds exactly when
      `s` has no separator or only separators after the first one. */
  lemma SplitElementOne(s: string, sep: char)
    ensures Element(Split(s, sep), 1) == SecondField(s, sep)
  {
    var p := IndexOf(s, sep);
    var fields := SplitAll(s, sep);
    if p < |s| {
      var t := s[p + 1..];
      assert fields == [s[..p]] + SplitAll(t, sep);
      var d := DropTrailingEmpty(fields);
      assert Split(s, sep) == d;
      AllFieldsEmpty(t, sep);
      if !OnlySeparators(t, sep) {
        var k :| 0 <= k < |SplitAll(t, sep)| && SplitAll(t, sep)[k] != "";
        assert fields[k + 1] != "";
        assert d[1] == fields[1] == SplitAll(t, sep)[0];
      }
    }
  }
}

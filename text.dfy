/**
 * The string operations the ledger's query and the navigation use:
 * prefix test, substring test, ASCII case mapping, and JavaScript's
 * `split` on a one-character separator together with its inverse `join`.
 */
module Text {

  /** `s.startsWith(prefix)`. */
  predicate StartsWith(s: string, prefix: string) {
    |prefix| <= |s| && s[..|prefix|] == prefix
  }

  /** `sub` occurs in `s` starting at index `i`. */
  predicate OccursAt(s: string, sub: string, i: int) {
    0 <= i && i + |sub| <= |s| && s[i..i + |sub|] == sub
  }

  /** `s` holds `sub` as a contiguous substring. */
  predicate Contains(s: string, sub: string) {
    exists i | 0 <= i <= |s| - |sub| :: OccursAt(s, sub, i)
  }

  function LowerChar(c: char): char {
    if 'A' <= c <= 'Z' then (c as int + 32) as char else c
  }

  function UpperChar(c: char): char {
    if 'a' <= c <= 'z' then (c as int - 32) as char else c
  }

  /** `s.toLowerCase()` on the ASCII letters. */
  function Lower(s: string): (r: string)
    ensures |r| == |s| && forall i :: 0 <= i < |s| ==> r[i] == LowerChar(s[i])
  {
    seq(|s|, i requires 0 <= i < |s| => LowerChar(s[i]))
  }

  /** `s.toUpperCase()` on the ASCII letters. */
  function Upper(s: string): (r: string)
    ensures |r| == |s| && forall i :: 0 <= i < |s| ==> r[i] == UpperChar(s[i])
  {
    seq(|s|, i requires 0 <= i < |s| => UpperChar(s[i]))
  }

  /** A case-insensitive substring match (the store's `contains` in insensitive mode). */
  predicate ContainsInsensitive(s: string, sub: string) {
    Contains(Lower(s), Lower(sub))
  }

  /**
   * `s.split(sep)`: the maximal runs between separators, empty runs
   * included, so there is always one more piece than there are separators.
   */
  function Split(s: string, sep: char): (words: seq<string>)
    ensures |words| >= 1
    decreases |s|
  {
    if |s| == 0 then [""]
    else
      var rest := Split(s[1..], sep);
      if s[0] == sep then [""] + rest
      else [[s[0]] + rest[0]] + rest[1..]
  }

  /** `words.join(sep)`. */
  function Join(words: seq<string>, sep: char): string
    decreases |words|
  {
    if |words| == 0 then ""
    else if |words| == 1 then words[0]
    else words[0] + [sep] + Join(words[1..], sep)
  }

  /** No piece produced by `Split` contains the separator. */
  lemma {:induction false} SplitPiecesAvoidSeparator(s: string, sep: char)
    ensures forall k :: 0 <= k < |Split(s, sep)| ==> sep !in Split(s, sep)[k]
    decreases |s|
  {
    if |s| > 0 {
      SplitPiecesAvoidSeparator(s[1..], sep);
    }
  }

  /** Joining the pieces back with the separator restores the string. */
  lemma {:induction false} JoinSplit(s: string, sep: char)
    ensures Join(Split(s, sep), sep) == s
    decreases |s|
  {
    if |s| > 0 {
      var rest := Split(s[1..], sep);
      JoinSplit(s[1..], sep);
      if s[0] == sep {
        assert Split(s, sep) == [""] + rest;
        assert ([""] + rest)[1..] == rest;
      } else {
        var ws := [[s[0]] + rest[0]] + rest[1..];
        assert Split(s, sep) == ws;
        if |rest| == 1 {
          assert Join(rest, sep) == rest[0];
        } else {
          assert ws[1..] == rest[1..];
          assert Join(rest, sep) == rest[0] + [sep] + Join(rest[1..], sep);
        }
      }
    }
  }

  /** Splitting a join of separator-free pieces gives the pieces back. */
  lemma {:induction false} SplitJoin(words: seq<string>, sep: char)
    requires |words| >= 1
    requires forall k :: 0 <= k < |words| ==> sep !in words[k]
    ensures Split(Join(words, sep), sep) == words
    decreases |words|, |words[0]|
  {
    if |words[0]| > 0 {
      var w := words[0];
      var tail := [w[1..]] + words[1..];
      assert Join(words, sep) == [w[0]] + Join(tail, sep) by {
        if |words| == 1 {
          assert Join(tail, sep) == w[1..];
        } else {
          assert tail[1..] == words[1..];
        }
      }
      assert sep !in w[1..] by {
        forall j | 0 <= j < |w[1..]| ensures w[1..][j] != sep {
          assert w[1..][j] == w[j + 1];
        }
      }
      SplitJoin(tail, sep);
      var s := Join(words, sep);
      assert s[0] == w[0] && s[1..] == Join(tail, sep);
      assert w[0] != sep by { assert w[0] in w; }
      assert Split(s, sep) == [[w[0]] + tail[0]] + tail[1..];
      assert [w[0]] + w[1..] == w;
      assert tail[1..] == words[1..];
    } else if |words| > 1 {
      SplitJoin(words[1..], sep);
      var s := Join(words, sep);
      assert s == [sep] + Join(words[1..], sep);
      assert s[1..] == Join(words[1..], sep);
      assert [""] + words[1..] == words;
    }
  }
}

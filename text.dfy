/**
 * The PHP and SQL string operations the commands rely on: the falsy test
 * (`empty`, `if ($x)`), `trim`, `explode`, `str_starts_with` and SQLite's
 * `LIKE '%x%'` with ASCII case folding.
 */
module Text {

  /** PHP truthiness of a string: "" and "0" are falsy, every other string is truthy. */
  predicate Truthy(s: string) {
    s != "" && s != "0"
  }

  /** The characters PHP's `trim` strips by default: space, \t, \n, \r, \0 and \x0B. */
  predicate IsTrimmable(c: char) {
    c == ' ' || c == '\t' || c == '\n' || c == '\r' || c == '\0' || c == '\U{000B}'
  }

  /** `ltrim`: the longest suffix of `s` that does not start with a trimmable character. */
  function TrimStart(s: string): (r: string)
    ensures |r| <= |s| && r == s[|s| - |r|..]
    ensures forall k :: 0 <= k < |s| - |r| ==> IsTrimmable(s[k])
    ensures r == [] || !IsTrimmable(r[0])
  {
    if |s| > 0 && IsTrimmable(s[0]) then TrimStart(s[1..]) else s
  }

  /** `rtrim`: the longest prefix of `s` that does not end with a trimmable character. */
  function TrimEnd(s: string): (r: string)
    ensures |r| <= |s| && r == s[..|r|]
    ensures forall k :: |r| <= k < |s| ==> IsTrimmable(s[k])
    ensures r == [] || !IsTrimmable(r[|r| - 1])
  {
    if |s| > 0 && IsTrimmable(s[|s| - 1]) then TrimEnd(s[..|s| - 1]) else s
  }

  /**
   * `trim`: the slice of `s` left once the trimmable characters at either
   * end are cut off; only trimmable characters lie outside it.
   */
  function Trim(s: string): (r: string)
    ensures |r| <= |s|
    ensures r == [] || (!IsTrimmable(r[0]) && !IsTrimmable(r[|r| - 1]))
    ensures exists a, b :: 0 <= a <= b <= |s| && r == s[a..b] &&
              (forall k :: 0 <= k < a ==> IsTrimmable(s[k])) &&
              (forall k :: b <= k < |s| ==> IsTrimmable(s[k]))
  {
    TrimBothEnds(s);
    TrimEnd(TrimStart(s))
  }

  /** Cutting both ends leaves a slice with only trimmable characters around it. */
  lemma {:induction false} TrimBothEnds(s: string)
    ensures var a, b := |s| - |TrimStart(s)|, |s| - |TrimStart(s)| + |TrimEnd(TrimStart(s))|;
            0 <= a <= b <= |s| && TrimEnd(TrimStart(s)) == s[a..b] &&
            (forall k :: 0 <= k < a ==> IsTrimmable(s[k])) &&
            (forall k :: b <= k < |s| ==> IsTrimmable(s[k]))
  {
    var middle := TrimStart(s);
    var r := TrimEnd(middle);
    var a, b := |s| - |middle|, |s| - |middle| + |r|;
    assert middle == s[a..];
    assert r == middle[..|r|] == s[a..b];
    forall k | b <= k < |s| ensures IsTrimmable(s[k]) {
      assert s[k] == middle[k - a];
    }
  }

  /** Trimming only removes characters: every character of the result is one of the input's. */
  lemma TrimKeepsChars(s: string)
    ensures forall c :: c in Trim(s) ==> c in s
  {
    var middle := TrimStart(s);
    SliceChars(s, |s| - |middle|, |s|);
    SliceChars(middle, 0, |Trim(s)|);
  }

  /** A slice holds only characters of the whole. */
  lemma SliceChars(s: string, i: nat, j: nat)
    requires i <= j <= |s|
    ensures forall c :: c in s[i..j] ==> c in s
  {
    forall c | c in s[i..j] ensures c in s {
      var k :| 0 <= k < j - i && s[i..j][k] == c;
      assert s[i + k] == c;
    }
  }

  /** Trimming twice is trimming once. */
  lemma TrimIdempotent(s: string)
    ensures Trim(Trim(s)) == Trim(s)
  {
    var r := Trim(s);
    assert TrimStart(r) == r;
    assert TrimEnd(r) == r;
  }

  /** `explode(sep, s)`: the pieces of `s` between occurrences of `sep`; never empty. */
  function Explode(sep: char, s: string): (r: seq<string>)
    ensures |r| >= 1
    ensures forall k :: 0 <= k < |r| ==> sep !in r[k]
    decreases |s|
  {
    if |s| == 0 then [""]
    else
      var rest := Explode(sep, s[1..]);
      if s[0] == sep then [""] + rest
      else [[s[0]] + rest[0]] + rest[1..]
  }

  /** `implode(sep, pieces)`: the pieces joined with `sep` between neighbours. */
  function Implode(sep: char, pieces: seq<string>): string
    decreases |pieces|
  {
    if |pieces| == 0 then ""
    else if |pieces| == 1 then pieces[0]
    else pieces[0] + [sep] + Implode(sep, pieces[1..])
  }

  /** Joining the pieces of `explode` with the separator gives the input back. */
  lemma {:induction false} ImplodeExplode(sep: char, s: string)
    ensures Implode(sep, Explode(sep, s)) == s
    decreases |s|
  {
    if |s| > 0 {
      var rest := Explode(sep, s[1..]);
      ImplodeExplode(sep, s[1..]);
      assert s == [s[0]] + s[1..];
      if s[0] == sep {
        assert Implode(sep, [""] + rest) == "" + [sep] + Implode(sep, rest);
      } else if |rest| == 1 {
        assert Explode(sep, s) == [[s[0]] + rest[0]];
      } else {
        var pieces := [[s[0]] + rest[0]] + rest[1..];
        assert pieces[1..] == rest[1..];
        calc {
          Implode(sep, pieces);
          ([s[0]] + rest[0]) + [sep] + Implode(sep, rest[1..]);
          [s[0]] + (rest[0] + [sep] + Implode(sep, rest[1..]));
          [s[0]] + Implode(sep, rest);
        }
      }
    }
  }

  /** `str_starts_with(s, prefix)`. */
  predicate StartsWith(s: string, prefix: string) {
    |prefix| <= |s| && s[..|prefix|] == prefix
  }

  /** Whether `needle` occurs in `hay` as a contiguous piece, searched from the left. */
  predicate Contains(hay: string, needle: string)
    decreases |hay|
  {
    StartsWith(hay, needle) || (|hay| > 0 && Contains(hay[1..], needle))
  }

  /** `needle` sits in `hay` at offset `i`. */
  predicate OccursAt(hay: string, needle: string, i: int) {
    0 <= i && i + |needle| <= |hay| && hay[i..i + |needle|] == needle
  }

  /** An occurrence at any offset is found by the left-to-right search. */
  lemma {:induction false} OccursAtContains(hay: string, needle: string, i: int)
    requires OccursAt(hay, needle, i)
    ensures Contains(hay, needle)
    decreases i
  {
    if i > 0 {
      assert OccursAt(hay[1..], needle, i - 1) by {
        assert hay[1..][i - 1..i - 1 + |needle|] == hay[i..i + |needle|];
      }
      OccursAtContains(hay[1..], needle, i - 1);
    }
  }

  /** What the search finds is an occurrence at some offset. */
  lemma {:induction false} ContainsOccurs(hay: string, needle: string)
    requires Contains(hay, needle)
    ensures exists i :: OccursAt(hay, needle, i)
    decreases |hay|
  {
    if StartsWith(hay, needle) {
      assert OccursAt(hay, needle, 0);
    } else {
      ContainsOccurs(hay[1..], needle);
      var i :| OccursAt(hay[1..], needle, i);
      assert hay[1..][i..i + |needle|] == hay[i + 1..i + 1 + |needle|];
      assert OccursAt(hay, needle, i + 1);
    }
  }

  /** ASCII lower-casing of one character, as SQLite's LIKE folds case. */
  function LowerChar(c: char): char {
    if 'A' <= c <= 'Z' then (c as int - 'A' as int + 'a' as int) as char else c
  }

  function Lower(s: string): (r: string)
    ensures |r| == |s|
    ensures forall k :: 0 <= k < |s| ==> r[k] == LowerChar(s[k])
  {
    seq(|s|, k requires 0 <= k < |s| => LowerChar(s[k]))
  }

  /** SQL `hay LIKE '%needle%'`: an ASCII case-insensitive substring test. */
  predicate Like(hay: string, needle: string) {
    Contains(Lower(hay), Lower(needle))
  }

  /** Every name matches its own pattern, so a fuzzy lookup for an existing name finds a row. */
  lemma LikeSelf(s: string)
    ensures Like(s, s)
  {
    assert StartsWith(Lower(s), Lower(s));
  }

  /** A needle that occurs literally in the haystack matches, whatever the case. */
  lemma LikeSubstring(hay: string, i: nat, needle: string)
    requires i + |needle| <= |hay| && hay[i..i + |needle|] == needle
    ensures Like(hay, needle)
  {
    assert Lower(hay)[i..i + |needle|] == Lower(needle);
    OccursAtContains(Lower(hay), Lower(needle), i);
  }

  /** Matching is insensitive to the case of the needle. */
  lemma LikeIgnoresCase(hay: string, needle: string)
    ensures Like(hay, Lower(needle)) == Like(hay, needle)
  {
    assert Lower(Lower(needle)) == Lower(needle);
  }
}

/**
 * The few JavaScript string operations the sync engine relies on:
 * `indexOf`, `includes` and `split` with a non-empty separator.
 * A JavaScript `undefined` result is `None`.
 */
module JsString {
  import opened Wrappers

  /** JavaScript truthiness of a string that may be `undefined`. */
  predicate Truthy(v: Option<string>) {
    v.Some? && v.value != ""
  }

  /** `pat` occurs in `s` starting at index `i`. */
  predicate OccursAt(s: string, pat: string, i: nat) {
    i + |pat| <= |s| && s[i..i + |pat|] == pat
  }

  /** `s.indexOf(pat, from)`; `None` stands for -1. */
  function IndexOf(s: string, pat: string, from: nat): (r: Option<nat>)
    decreases |s| - from
    ensures r.Some? ==> from <= r.value && OccursAt(s, pat, r.value)
    ensures r.Some? ==> forall j :: from <= j < r.value ==> !OccursAt(s, pat, j)
    ensures r.None? ==> forall j: nat :: from <= j ==> !OccursAt(s, pat, j)
  {
    if |s| < from + |pat| then None
    else if s[from..from + |pat|] == pat then Some(from)
    else IndexOf(s, pat, from + 1)
  }

  /** `s.includes(pat)`, i.e. `s.indexOf(pat) > -1`. */
  predicate Includes(s: string, pat: string) {
    IndexOf(s, pat, 0).Some?
  }

  lemma OccursAtIncludes(s: string, pat: string, i: nat)
    requires OccursAt(s, pat, i)
    ensures Includes(s, pat)
  {
  }

  /** An occurrence inside a prefix of `s` is an occurrence in `s`. */
  lemma OccursAtPrefix(s: string, pat: string, n: nat, j: nat)
    requires n <= |s| && OccursAt(s[..n], pat, j)
    ensures OccursAt(s, pat, j) && j + |pat| <= n
  {
    assert s[..n][j..j + |pat|] == s[j..j + |pat|];
  }

  /** Being a prefix is transitive. */
  lemma PrefixOfPrefix(a: string, b: string, c: string)
    requires a <= b && b <= c
    ensures a <= c
  {
  }

  /** A prefix of what follows an occurrence of `sep` extends that occurrence. */
  lemma FollowedBy(s: string, sep: string, i: nat, v: string)
    requires OccursAt(s, sep, i) && v <= s[i + |sep|..]
    ensures OccursAt(s, sep + v, i)
  {
    assert s[i..i + |sep| + |v|] == sep + v by {
      assert s[i..i + |sep|] == sep;
      assert s[i + |sep|..i + |sep| + |v|] == v;
    }
  }

  /** No occurrence of `pat` lies inside `s`. */
  predicate Free(s: string, pat: string) {
    forall j :: 0 <= j <= |s| ==> !OccursAt(s, pat, j)
  }

  /** `s.split(sep)` for a non-empty separator: the pieces between non-overlapping occurrences, left to right. */
  function Split(s: string, sep: string): (parts: seq<string>)
    requires sep != []
    decreases |s|
    ensures |parts| >= 1
    ensures forall k :: 0 <= k < |parts| ==> Free(parts[k], sep)
  {
    match IndexOf(s, sep, 0)
    case None => [s]
    case Some(i) =>
      assert Free(s[..i], sep) by {
        forall j | 0 <= j <= i && OccursAt(s[..i], sep, j) ensures false {
          OccursAtPrefix(s, sep, i, j);
        }
      }
      [s[..i]] + Split(s[i + |sep|..], sep)
  }

  /** `parts.join(sep)`: the inverse of `Split`. */
  function Join(parts: seq<string>, sep: string): string
    requires |parts| >= 1
  {
    if |parts| == 1 then parts[0] else parts[0] + sep + Join(parts[1..], sep)
  }

  /** Splitting loses nothing: joining the pieces with the separator gives back the string. */
  lemma {:induction false} SplitJoin(s: string, sep: string)
    requires sep != []
    decreases |s|
    ensures Join(Split(s, sep), sep) == s
  {
    match IndexOf(s, sep, 0)
    case None =>
    case Some(i) =>
      var rest := s[i + |sep|..];
      var parts := Split(s, sep);
      assert parts == [s[..i]] + Split(rest, sep);
      assert parts[1..] == Split(rest, sep);
      SplitJoin(rest, sep);
      calc {
        Join(parts, sep);
        s[..i] + sep + Join(Split(rest, sep), sep);
        s[..i] + sep + rest;
        { assert s[i..i + |sep|] == sep; }
        s;
      }
  }

  /**
   * The first piece: the longest prefix of `s` in which no occurrence of `sep` starts;
   * it is all of `s` exactly when `sep` does not occur.
   */
  lemma SplitHead(s: string, sep: string)
    requires sep != []
    ensures var p := Split(s, sep)[0];
      && p <= s
      && (forall j :: 0 <= j < |p| ==> !OccursAt(s, sep, j))
      && (|Split(s, sep)| == 1 <==> !Includes(s, sep))
      && (|Split(s, sep)| == 1 ==> p == s)
      && (|Split(s, sep)| >= 2 ==> OccursAt(s, sep, |p|) && IndexOf(s, sep, 0) == Some(|p|))
  {
  }

  /** The second piece is the first piece of what follows the first occurrence of `sep`. */
  lemma SecondPiece(s: string, sep: string)
    requires sep != [] && Includes(s, sep)
    ensures |Split(s, sep)| >= 2
    ensures Split(s, sep)[1] == Split(s[IndexOf(s, sep, 0).value + |sep|..], sep)[0]
  {
  }

  /** Splitting on a one-character separator: the first piece is the longest prefix without it. */
  lemma SplitHeadChar(s: string, c: char)
    ensures var p := Split(s, [c])[0];
      && p <= s
      && (forall j :: 0 <= j < |p| ==> s[j] != c)
      && (|p| == |s| || s[|p|] == c)
  {
    SplitHead(s, [c]);
    var p := Split(s, [c])[0];
    forall j | 0 <= j < |p| ensures s[j] != c {
      assert !OccursAt(s, [c], j);
      assert s[j..j + 1] == [s[j]];
    }
    if |p| != |s| {
      assert OccursAt(s, [c], |p|);
      assert s[|p|..|p| + 1] == [s[|p|]];
    }
  }
}

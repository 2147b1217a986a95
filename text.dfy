/**
 * The few Python string operations the commands rely on: `str.strip`, `str.split(sep)`,
 * `str.split(",", 1)`, `str.lower` and slicing past the end.
 */
module Text {
  import opened Common

  /** Python's `str.isspace` for one character: the ASCII controls 9-13 and 28-31, the space,
      U+0085, U+00A0 and the Unicode space separators. */
  predicate IsSpace(c: char) {
    || ('\t' <= c <= '\r')
    || ('\U{1C}' <= c <= ' ')
    || c == '\U{85}' || c == '\U{A0}' || c == '\U{1680}'
    || ('\U{2000}' <= c <= '\U{200A}')
    || c == '\U{2028}' || c == '\U{2029}' || c == '\U{202F}' || c == '\U{205F}' || c == '\U{3000}'
  }

  predicate AllSpace(s: string) {
    forall i :: 0 <= i < |s| ==> IsSpace(s[i])
  }

  /** Neither starts nor ends with whitespace: what `str.strip` returns. */
  predicate IsStripped(s: string) {
    s == [] || (!IsSpace(s[0]) && !IsSpace(s[|s| - 1]))
  }

  /** The index of the first non-space character at or after `from`, or `|s|`. */
  function SkipSpaces(s: string, from: nat): (n: nat)
    requires from <= |s|
    ensures from <= n <= |s|
    ensures forall k :: from <= k < n ==> IsSpace(s[k])
    ensures n < |s| ==> !IsSpace(s[n])
    decreases |s| - from
  {
    if from < |s| && IsSpace(s[from]) then SkipSpaces(s, from + 1) else from
  }

  /** The end of `s[lo..hi]` once its trailing whitespace is dropped. */
  function TrailingStart(s: string, lo: nat, hi: nat): (n: nat)
    requires lo <= hi <= |s|
    ensures lo <= n <= hi
    ensures forall k :: n <= k < hi ==> IsSpace(s[k])
    ensures n > lo ==> !IsSpace(s[n - 1])
    decreases hi
  {
    if hi > lo && IsSpace(s[hi - 1]) then TrailingStart(s, lo, hi - 1) else hi
  }

  /** `str.strip()`: the infix of `s` left after dropping its leading and its trailing
      whitespace; it neither starts nor ends with whitespace. */
  function Strip(s: string): (r: string)
    ensures IsStripped(r)
    ensures var i := SkipSpaces(s, 0);
            && i + |r| <= |s| && r == s[i..i + |r|]
            && (forall k :: 0 <= k < i ==> IsSpace(s[k]))
            && (forall k :: i + |r| <= k < |s| ==> IsSpace(s[k]))
  {
    var i := SkipSpaces(s, 0);
    s[i..TrailingStart(s, i, |s|)]
  }

  /** `strip` is pinned down by its defining properties: any infix with only whitespace
      around it, which neither starts nor ends with whitespace, is the strip. */
  lemma StripCharacterized(s: string, i: nat, j: nat)
    requires i <= j <= |s|
    requires forall k :: 0 <= k < i ==> IsSpace(s[k])
    requires forall k :: j <= k < |s| ==> IsSpace(s[k])
    requires i < j ==> !IsSpace(s[i]) && !IsSpace(s[j - 1])
    ensures Strip(s) == s[i..j]
  {
    var a := SkipSpaces(s, 0);
    var b := TrailingStart(s, a, |s|);
    if i == j {
      assert forall k :: 0 <= k < |s| ==> IsSpace(s[k]);
      assert a == |s|;
    } else {
      assert a == i;
      assert b == j;
    }
  }

  /** Stripping drops exactly the blank strings to nothing. */
  lemma StripEmptyIff(s: string)
    ensures Strip(s) == [] <==> AllSpace(s)
  {
    var r := Strip(s);
    var i := SkipSpaces(s, 0);
    if r != [] {
      assert r[0] == s[i] && !IsSpace(s[i]);
    }
  }

  /** A string that is already stripped is its own strip. */
  lemma StripOfStripped(s: string)
    requires IsStripped(s)
    ensures Strip(s) == s
  {
    StripCharacterized(s, 0, |s|);
  }

  /** Leading whitespace does not survive `strip`. */
  lemma StripLeadingSpace(c: char, s: string)
    requires IsSpace(c)
    ensures Strip([c] + s) == Strip(s)
  {
    var r := Strip(s);
    var i := SkipSpaces(s, 0);
    var u := [c] + s;
    assert forall k :: 1 <= k <= |s| ==> u[k] == s[k - 1];
    StripCharacterized(u, i + 1, i + 1 + |r|);
    assert u[i + 1..i + 1 + |r|] == r;
  }

  /** Stripping keeps a head that starts and ends with a visible character whole at the
      front. */
  lemma StripKeepsVisibleHead(p: string, q: string)
    requires p != [] && !IsSpace(p[0]) && !IsSpace(p[|p| - 1])
    ensures |p| <= |Strip(p + q)| && Strip(p + q)[..|p|] == p
  {
    var s := p + q;
    assert s[0] == p[0] && s[|p| - 1] == p[|p| - 1];
    assert SkipSpaces(s, 0) == 0;
    assert TrailingStart(s, 0, |s|) >= |p|;
    assert s[..|p|] == p;
  }

  /** Stripping only removes characters, so a character absent from `s` is absent from its
      strip. */
  lemma StripKeepsAbsent(s: string, c: char)
    requires c !in s
    ensures c !in Strip(s)
  {
    var r := Strip(s);
    var i := SkipSpaces(s, 0);
    forall k | 0 <= k < |r| ensures r[k] != c {
      assert r[k] == s[i + k];
    }
  }

  /** `str.lower()` on one character, for the ASCII letters. */
  function LowerChar(c: char): char {
    if 'A' <= c <= 'Z' then (c as int + 32) as char else c
  }

  /** `str.lower()`, character by character. */
  function Lower(s: string): (r: string)
    ensures |r| == |s|
    ensures forall i :: 0 <= i < |s| ==> r[i] == LowerChar(s[i])
  {
    if s == [] then [] else [LowerChar(s[0])] + Lower(s[1..])
  }

  /** Lower-casing twice changes nothing more: stored triggers are fixed points of `Lower`. */
  lemma LowerIdempotent(s: string)
    ensures Lower(Lower(s)) == Lower(s)
  {
  }

  /** Python's `s[k:]`, which is empty once `k` runs past the end. */
  function Tail(s: string, k: nat): (r: string)
    ensures k <= |s| ==> s == s[..k] + r
    ensures k >= |s| ==> r == []
  {
    if k <= |s| then s[k..] else []
  }

  predicate OccursAt(s: string, sep: string, i: nat) {
    i + |sep| <= |s| && s[i..i + |sep|] == sep
  }

  predicate Contains(s: string, sep: string) {
    exists i: nat :: i <= |s| && OccursAt(s, sep, i)
  }

  /** The leftmost occurrence of `sep` in `s` at or after `from` (`str.find`). */
  function IndexOf(s: string, sep: string, from: nat): (r: Option<nat>)
    requires sep != []
    ensures r.Some? ==> from <= r.value && OccursAt(s, sep, r.value)
    ensures forall k: nat :: from <= k && (r.None? || k < r.value) ==> !OccursAt(s, sep, k)
    decreases |s| - from
  {
    if from + |sep| > |s| then None
    else if OccursAt(s, sep, from) then Some(from)
    else IndexOf(s, sep, from + 1)
  }

  /** `str.find` answers only when the separator occurs. */
  lemma IndexOfFindsOccurrence(s: string, sep: string)
    requires sep != []
    ensures IndexOf(s, sep, 0).Some? ==> Contains(s, sep)
  {
    var r := IndexOf(s, sep, 0);
    if r.Some? {
      assert r.value <= |s| && OccursAt(s, sep, r.value);
    }
  }

  /** `sep.join(parts)` */
  function Join(parts: seq<string>, sep: string): string
    requires |parts| >= 1
  {
    if |parts| == 1 then parts[0] else parts[0] + sep + Join(parts[1..], sep)
  }

  /** `s.split(sep)`: cut at every leftmost occurrence; joining the pieces gives `s` back and
      no piece contains the separator. */
  function SplitOn(s: string, sep: string): (parts: seq<string>)
    requires sep != []
    ensures |parts| >= 1
    ensures Join(parts, sep) == s
    ensures forall p :: p in parts ==> !Contains(p, sep)
    decreases |s|
  {
    match IndexOf(s, sep, 0)
    case None => [s]
    case Some(i) =>
      var rest := SplitOn(s[i + |sep|..], sep);
      NoOccurrenceBefore(s, sep, i);
      assert Join([s[..i]] + rest, sep) == s[..i] + sep + Join(rest, sep);
      assert s == s[..i] + s[i..i + |sep|] + s[i + |sep|..];
      [s[..i]] + rest
  }

  lemma NoOccurrenceBefore(s: string, sep: string, i: nat)
    requires sep != [] && i <= |s|
    requires forall k: nat :: k < i ==> !OccursAt(s, sep, k)
    ensures !Contains(s[..i], sep)
  {
    forall k: nat | OccursAt(s[..i], sep, k) ensures false {
      assert s[..i][k..k + |sep|] == s[k..k + |sep|];
      assert OccursAt(s, sep, k);
    }
  }

  /** `s.split(c, 1)`: `None` when `c` does not occur (unpacking it into two names raises
      `ValueError`), otherwise the text before the first `c` and everything after it. */
  function SplitOnce(s: string, c: char): (r: Option<(string, string)>)
    ensures r.None? <==> c !in s
    ensures r.Some? ==> r.value.0 + [c] + r.value.1 == s && c !in r.value.0
  {
    if s == [] then None
    else if s[0] == c then Some(([], s[1..]))
    else
      match SplitOnce(s[1..], c)
      case None => None
      case Some((a, b)) =>
        assert [s[0]] + a + [c] + b == [s[0]] + (a + [c] + b);
        Some(([s[0]] + a, b))
  }

  /** The split at the first `c` is the only one whose left part is free of `c`. */
  lemma {:induction false} FirstCutUnique(a: string, b: string, a': string, b': string, c: char)
    requires a + [c] + b == a' + [c] + b'
    requires c !in a && c !in a'
    ensures a == a' && b == b'
    decreases |a| + |a'|, |a|
  {
    if a == [] {
      assert (a' + [c] + b')[0] == c;
      assert a' == [];
      assert b == (a + [c] + b)[1..] && b' == (a' + [c] + b')[1..];
    } else if a' == [] {
      FirstCutUnique(a', b', a, b, c);
    } else {
      assert (a + [c] + b)[0] == a[0] && (a' + [c] + b')[0] == a'[0];
      assert a[1..] + [c] + b == (a + [c] + b)[1..] == (a' + [c] + b')[1..] == a'[1..] + [c] + b';
      FirstCutUnique(a[1..], b, a'[1..], b', c);
      assert a == [a[0]] + a[1..];
      assert a' == [a'[0]] + a'[1..];
    }
  }
}

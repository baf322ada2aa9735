/**
 * The JavaScript string operations the gateway relies on: lower-casing,
 * prefix / suffix / substring tests, and `split` / `join` on a one-character
 * separator. Strings are sequences of characters.
 */
module Text {
  import opened Wrappers

  /** `toLowerCase` on one character, restricted to ASCII letters. */
  function Lower(c: char): (r: char)
    ensures 'A' <= c <= 'Z' ==> r as int == c as int + 32
    ensures !('A' <= c <= 'Z') ==> r == c
    ensures !('A' <= r <= 'Z')
  {
    if 'A' <= c <= 'Z' then (c as int + 32) as char else c
  }

  /** `String.prototype.toLowerCase`, character by character. */
  function LowerStr(s: string): (r: string)
  {
    seq(|s|, i requires 0 <= i < |s| => Lower(s[i]))
  }

  lemma LowerStrIdempotent(s: string)
    ensures LowerStr(LowerStr(s)) == LowerStr(s)
  {
    assert forall i :: 0 <= i < |s| ==> Lower(Lower(s[i])) == Lower(s[i]);
  }

  /** `s.startsWith(p)` */
  predicate StartsWith(s: string, p: string)
  {
    |p| <= |s| && s[..|p|] == p
  }

  /** `s.endsWith(q)` */
  predicate EndsWith(s: string, q: string)
  {
    |q| <= |s| && s[|s| - |q|..] == q
  }

  /** `s.includes(t)`: t occurs somewhere in s. */
  predicate Contains(s: string, t: string)
    decreases |s|
  {
    StartsWith(s, t) || (s != [] && Contains(s[1..], t))
  }

  /** t occurs in s starting at position k. */
  predicate OccursAt(s: string, t: string, k: int)
  {
    0 <= k <= |s| - |t| && s[k..k + |t|] == t
  }

  /** `includes` agrees with "t occurs at some position of s". */
  lemma {:induction false} ContainsAt(s: string, t: string)
    ensures Contains(s, t) <==> exists k :: OccursAt(s, t, k)
    decreases |s|
  {
    if StartsWith(s, t) {
      assert OccursAt(s, t, 0);
    } else if s == [] {
    } else {
      ContainsAt(s[1..], t);
      if exists k :: OccursAt(s, t, k) {
        var k :| OccursAt(s, t, k);
        assert k != 0;
        assert s[1..][k - 1..k - 1 + |t|] == s[k..k + |t|];
        assert OccursAt(s[1..], t, k - 1);
      }
      if Contains(s[1..], t) {
        var k :| OccursAt(s[1..], t, k);
        assert s[k + 1..k + 1 + |t|] == s[1..][k..k + |t|];
        assert OccursAt(s, t, k + 1);
      }
    }
  }

  /** `s.indexOf(c)` for a single character, as an Option. */
  function IndexOf(s: string, c: char): (r: Option<nat>)
    ensures r.Some? ==> r.value < |s| && s[r.value] == c && forall j :: 0 <= j < r.value ==> s[j] != c
    ensures r.None? ==> forall j :: 0 <= j < |s| ==> s[j] != c
    decreases |s|
  {
    if s == [] then None
    else if s[0] == c then Some(0)
    else match IndexOf(s[1..], c)
      case None => None
      case Some(i) => Some(i + 1)
  }

  /** IndexOf is determined by its contract: the first position holding c, if any. */
  lemma IndexOfIs(s: string, c: char, r: Option<nat>)
    requires r.Some? ==> r.value < |s| && s[r.value] == c && forall j :: 0 <= j < r.value ==> s[j] != c
    requires r.None? ==> forall j :: 0 <= j < |s| ==> s[j] != c
    ensures IndexOf(s, c) == r
  {
    var l := IndexOf(s, c);
    if l.Some? && r.Some? {
      assert !(l.value < r.value) && !(r.value < l.value);
    }
  }

  /** `s.lastIndexOf(c)` for a single character, as an Option. */
  function LastIndexOf(s: string, c: char): (r: Option<nat>)
    ensures r.Some? ==> r.value < |s| && s[r.value] == c && forall j :: r.value < j < |s| ==> s[j] != c
    ensures r.None? ==> forall j :: 0 <= j < |s| ==> s[j] != c
    decreases |s|
  {
    if s == [] then None
    else if s[|s| - 1] == c then Some(|s| - 1)
    else LastIndexOf(s[..|s| - 1], c)
  }

  /** LastIndexOf is determined by its contract: the last position holding c, if any. */
  lemma LastIndexOfIs(s: string, c: char, r: Option<nat>)
    requires r.Some? ==> r.value < |s| && s[r.value] == c && forall j :: r.value < j < |s| ==> s[j] != c
    requires r.None? ==> forall j :: 0 <= j < |s| ==> s[j] != c
    ensures LastIndexOf(s, c) == r
  {
    var l := LastIndexOf(s, c);
    if l.Some? && r.Some? {
      assert !(l.value < r.value) && !(r.value < l.value);
    }
  }

  /** `s.split(c)` for a one-character separator: never empty, "" gives [""]. */
  function Split(s: string, c: char): (r: seq<string>)
    decreases |s|
  {
    match IndexOf(s, c)
    case None => [s]
    case Some(i) => [s[..i]] + Split(s[i + 1..], c)
  }

  /** `parts.join(c)` */
  function Join(parts: seq<string>, c: char): string
    decreases |parts|
  {
    if parts == [] then ""
    else if |parts| == 1 then parts[0]
    else parts[0] + [c] + Join(parts[1..], c)
  }

  /** Splitting never yields an empty list, and no piece holds the separator. */
  lemma {:induction false} SplitPieces(s: string, c: char)
    ensures |Split(s, c)| >= 1
    ensures forall k :: 0 <= k < |Split(s, c)| ==> c !in Split(s, c)[k]
    decreases |s|
  {
    match IndexOf(s, c)
    case None =>
    case Some(i) =>
      SplitPieces(s[i + 1..], c);
  }

  /** The first piece of `s.split(c)` is everything before the first `c`. */
  lemma SplitHead(s: string, c: char)
    ensures Split(s, c)[0] == match IndexOf(s, c) case None => s case Some(i) => s[..i]
  {
  }

  /** Joining the pieces of a split gives back the original string. */
  lemma {:induction false} JoinSplit(s: string, c: char)
    ensures Join(Split(s, c), c) == s
    decreases |s|
  {
    match IndexOf(s, c)
    case None =>
    case Some(i) =>
      var rest := s[i + 1..];
      var tail := Split(rest, c);
      JoinSplit(rest, c);
      SplitPieces(rest, c);
      var parts := [s[..i]] + tail;
      assert Split(s, c) == parts;
      assert parts[0] == s[..i] && parts[1..] == tail && |parts| >= 2;
      assert Join(parts, c) == s[..i] + [c] + Join(tail, c);
      assert s == s[..i] + [c] + rest;
  }

  /** Splitting a join of separator-free pieces gives back the pieces. */
  lemma {:induction false} SplitJoin(parts: seq<string>, c: char)
    requires |parts| >= 1
    requires forall k :: 0 <= k < |parts| ==> c !in parts[k]
    ensures Split(Join(parts, c), c) == parts
    decreases |parts|
  {
    if |parts| == 1 {
      IndexOfIs(parts[0], c, None);
    } else {
      var p, rest := parts[0], Join(parts[1..], c);
      var s := p + [c] + rest;
      assert Join(parts, c) == s;
      assert c !in p;
      forall j | 0 <= j < |p| ensures s[j] != c {
        assert s[j] == p[j];
      }
      assert s[|p|] == c;
      IndexOfIs(s, c, Some(|p|));
      assert s[..|p|] == p;
      assert s[|p| + 1..] == rest;
      assert forall k :: 0 <= k < |parts| - 1 ==> parts[1..][k] == parts[k + 1];
      SplitJoin(parts[1..], c);
    }
  }

  /** `s.split(c).slice(1).join(c)` is everything after the first `c`, or "" when there is none. */
  lemma AfterFirstSeparator(s: string, c: char)
    ensures Join(Split(s, c)[1..], c) == match IndexOf(s, c) case None => "" case Some(i) => s[i + 1..]
  {
    match IndexOf(s, c)
    case None =>
    case Some(i) =>
      assert Split(s, c)[1..] == Split(s[i + 1..], c);
      JoinSplit(s[i + 1..], c);
  }
}

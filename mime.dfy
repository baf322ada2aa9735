/**
 * The MIME resolver `getMimeType` (index.js:24-30) together with the part of
 * Node's POSIX `path.extname` it relies on.
 */
module Mime {
  import opened Wrappers
  import opened Text

  const PDF := "application/pdf"
  const PNG := "image/png"
  const JPEG := "image/jpeg"
  const OCTET_STREAM := "application/octet-stream"

  /** The path with every trailing `/` removed. */
  function TrimTrailingSlashes(p: string): (r: string)
    ensures |r| <= |p| && r == p[..|r|]
    ensures r == [] || r[|r| - 1] != '/'
    ensures forall j :: |r| <= j < |p| ==> p[j] == '/'
    decreases |p|
  {
    if p != [] && p[|p| - 1] == '/' then TrimTrailingSlashes(p[..|p| - 1]) else p
  }

  /** The last path segment, trailing separators ignored. */
  function BaseName(p: string): (b: string)
    ensures '/' !in b
  {
    AfterLastSlash(TrimTrailingSlashes(p))
  }

  /** Everything after the last `/` of t, or all of t. */
  function AfterLastSlash(t: string): (b: string)
    ensures '/' !in b
  {
    match LastIndexOf(t, '/')
    case None => t
    case Some(i) => t[i + 1..]
  }

  /**
   * What `path.extname` computes, stated on the last segment: from its last
   * `.` to its end; empty when it has no `.`, when that `.` is its first
   * character (a dot-file such as ".pdf"), or when the segment is "..".
   */
  function LastSegmentExt(p: string): (r: string)
    ensures r == [] || (r[0] == '.' && '.' !in r[1..] && '/' !in r)
    ensures r != [] ==> |r| < |BaseName(p)| && r == BaseName(p)[|BaseName(p)| - |r|..]
  {
    SegmentExt(BaseName(p))
  }

  /** The extension of one segment b (which holds no `/`). */
  function SegmentExt(b: string): (r: string)
    ensures r == [] || (r[0] == '.' && '.' !in r[1..])
    ensures r != [] ==> |r| < |b| && r == b[|b| - |r|..]
  {
    match LastIndexOf(b, '.')
    case None => ""
    case Some(d) => if d == 0 || b == ".." then "" else b[d..]
  }

  /** The variables of Node's `extname` loop; None stands for its -1. */
  datatype ScanState = ScanState(startPart: nat, end: Option<nat>, startDot: Option<nat>, preDotState: int)

  /**
   * The loop of Node's POSIX `path.extname`, scanning p[..i] from right to
   * left: trailing `/` are skipped, `end` marks the end of the last segment,
   * `startDot` its last `.`, and `preDotState` records whether the character
   * reached last before that `.` was a `.` (1) or not (-1).
   */
  function Scan(p: string, i: nat, end: Option<nat>, startDot: Option<nat>, preDotState: int): (r: ScanState)
    requires i <= |p|
    requires end.Some? ==> i < end.value <= |p|
    requires startDot.Some? ==> end.Some? && i <= startDot.value < end.value
    ensures r.startPart <= i
    ensures r.end.Some? ==> r.startPart < r.end.value <= |p|
    ensures r.startDot.Some? ==> r.end.Some? && r.startPart <= r.startDot.value < r.end.value
    decreases i
  {
    if i == 0 then ScanState(0, end, startDot, preDotState)
    else
      var k := i - 1;
      if p[k] == '/' then
        if end.Some? then ScanState(k + 1, end, startDot, preDotState)
        else Scan(p, k, end, startDot, preDotState)
      else
        var end' := if end.None? then Some(k + 1) else end;
        if p[k] == '.' then
          if startDot.None? then Scan(p, k, end', Some(k), preDotState)
          else Scan(p, k, end', startDot, if preDotState != 1 then 1 else preDotState)
        else Scan(p, k, end', startDot, if startDot.Some? then -1 else preDotState)
  }

  /** Node's POSIX `path.extname` (lib/path.js). */
  function ExtName(p: string): string
  {
    ScanResult(p, Scan(p, |p|, None, None, 0))
  }

  /** The return statement of Node's `extname`, given the loop's final variables. */
  function ScanResult(p: string, st: ScanState): string
    requires st.end.Some? ==> st.startPart < st.end.value <= |p|
    requires st.startDot.Some? ==> st.end.Some? && st.startPart <= st.startDot.value < st.end.value
  {
    if st.startDot.None? || st.end.None? || st.preDotState == 0 ||
       (st.preDotState == 1 && st.startDot.value == st.end.value - 1 && st.startDot.value == st.startPart + 1)
    then ""
    else p[st.startDot.value..st.end.value]
  }

  /** p[e..] is the run of trailing `/` of p. */
  ghost predicate TrailingFrom(p: string, e: nat)
  {
    e <= |p| && (e == 0 || p[e - 1] != '/') && forall j :: e <= j < |p| ==> p[j] == '/'
  }

  /** What the loop holds after scanning p[i..], where p[e..] are the trailing `/`. */
  ghost predicate ScannedFrom(p: string, e: nat, i: nat, end: Option<nat>, startDot: Option<nat>, preDotState: int)
    requires e <= |p|
  {
    && i <= |p|
    && (i >= e ==> end.None? && startDot.None? && preDotState == 0)
    && (i < e ==>
      && end == Some(e)
      && (forall j :: i <= j < e ==> p[j] != '/')
      && match startDot
         case None => (forall j :: i <= j < e ==> p[j] != '.') && preDotState == 0
         case Some(d) =>
           && i <= d < e && p[d] == '.' && (forall j :: d < j < e ==> p[j] != '.')
           && preDotState == (if d == i then 0 else if p[i] == '.' then 1 else -1))
  }

  /** A `/` met while only trailing `/` were seen is one of them. */
  lemma ScanStepSlash(p: string, e: nat, k: nat)
    requires TrailingFrom(p, e) && k < |p| && p[k] == '/'
    requires ScannedFrom(p, e, k + 1, None, None, 0)
    ensures ScannedFrom(p, e, k, None, None, 0)
  {
  }

  /** The first character other than `/` from the right ends the last segment. */
  lemma ScanStepEnd(p: string, e: nat, k: nat)
    requires TrailingFrom(p, e) && k < |p| && p[k] != '/'
    requires ScannedFrom(p, e, k + 1, None, None, 0)
    ensures k + 1 == e
  {
  }

  /** A `.` seen first becomes startDot. */
  lemma ScanStepFirstDot(p: string, e: nat, k: nat, preDotState: int)
    requires TrailingFrom(p, e) && k + 1 <= e && p[k] == '.'
    requires ScannedFrom(p, e, k + 1, if k + 1 == e then None else Some(e), None, preDotState)
    ensures ScannedFrom(p, e, k, Some(e), Some(k), preDotState)
  {
  }

  /** A `.` before startDot sets preDotState to 1. */
  lemma ScanStepLaterDot(p: string, e: nat, k: nat, d: nat, preDotState: int)
    requires TrailingFrom(p, e) && k + 1 < e && p[k] == '.'
    requires ScannedFrom(p, e, k + 1, Some(e), Some(d), preDotState)
    ensures ScannedFrom(p, e, k, Some(e), Some(d), if preDotState != 1 then 1 else preDotState)
  {
  }

  /** Any other character leaves startDot and sets preDotState to -1 once a `.` was seen. */
  lemma ScanStepPlain(p: string, e: nat, k: nat, startDot: Option<nat>, preDotState: int)
    requires TrailingFrom(p, e) && k + 1 <= e && p[k] != '.' && p[k] != '/'
    requires ScannedFrom(p, e, k + 1, if k + 1 == e then None else Some(e), startDot, preDotState)
    ensures ScannedFrom(p, e, k, Some(e), startDot, if startDot.Some? then -1 else preDotState)
  {
  }

  /** The loop stops just after the last `/` before the trailing ones, or at 0. */
  lemma {:induction false} ScanSpec(p: string, e: nat, i: nat, end: Option<nat>, startDot: Option<nat>, preDotState: int)
    requires TrailingFrom(p, e) && i <= |p|
    requires end.Some? ==> i < end.value <= |p|
    requires startDot.Some? ==> end.Some? && i <= startDot.value < end.value
    requires ScannedFrom(p, e, i, end, startDot, preDotState)
    ensures var r := Scan(p, i, end, startDot, preDotState);
      ScannedFrom(p, e, r.startPart, r.end, r.startDot, r.preDotState)
    decreases i
  {
    if i > 0 {
      var k := i - 1;
      if p[k] == '/' {
        if end.None? {
          ScanStepSlash(p, e, k);
          ScanSpec(p, e, k, end, startDot, preDotState);
        }
      } else {
        if end.None? {
          ScanStepEnd(p, e, k);
        }
        var end' := Some(e);
        assert end' == if end.None? then Some(k + 1) else end;
        if p[k] == '.' {
          if startDot.None? {
            ScanStepFirstDot(p, e, k, preDotState);
            ScanSpec(p, e, k, end', Some(k), preDotState);
          } else {
            ScanStepLaterDot(p, e, k, startDot.value, preDotState);
            ScanSpec(p, e, k, end', startDot, if preDotState != 1 then 1 else preDotState);
          }
        } else {
          ScanStepPlain(p, e, k, startDot, preDotState);
          ScanSpec(p, e, k, end', startDot, if startDot.Some? then -1 else preDotState);
        }
      }
    }
  }

  /** The loop stops just after a `/` that precedes the last segment's end, or at 0. */
  lemma {:induction false} ScanStops(p: string, e: nat, i: nat, end: Option<nat>, startDot: Option<nat>, preDotState: int)
    requires TrailingFrom(p, e) && i <= |p|
    requires end.Some? ==> i < end.value <= |p|
    requires startDot.Some? ==> end.Some? && i <= startDot.value < end.value
    requires end.None? <==> i >= e
    ensures var r := Scan(p, i, end, startDot, preDotState);
      r.startPart == 0 || (p[r.startPart - 1] == '/' && r.startPart < e)
    decreases i
  {
    if i > 0 {
      var k := i - 1;
      if p[k] == '/' {
        if end.None? {
          assert k >= e;
          ScanStops(p, e, k, end, startDot, preDotState);
        }
      } else {
        var end' := if end.None? then Some(k + 1) else end;
        assert k < e;
        if p[k] == '.' {
          if startDot.None? {
            ScanStops(p, e, k, end', Some(k), preDotState);
          } else {
            ScanStops(p, e, k, end', startDot, if preDotState != 1 then 1 else preDotState);
          }
        } else {
          ScanStops(p, e, k, end', startDot, if startDot.Some? then -1 else preDotState);
        }
      }
    }
  }

  /** Node's loop computes the extension of the last segment. */
  lemma ExtNameIsLastSegmentExt(p: string)
    ensures ExtName(p) == LastSegmentExt(p)
  {
    var t := TrimTrailingSlashes(p);
    var e := |t|;
    assert TrailingFrom(p, e);
    ScanSpec(p, e, |p|, None, None, 0);
    ScanStops(p, e, |p|, None, None, 0);
    var st := Scan(p, |p|, None, None, 0);
    if e > 0 {
      var s := st.startPart;
      BaseNameAt(p, t, e, s);
      FinalState(p, e, st);
    } else {
      assert BaseName(p) == [];
    }
  }

  /** The last segment starts just after the last `/` before the trailing ones. */
  lemma BaseNameAt(p: string, t: string, e: nat, s: nat)
    requires t == TrimTrailingSlashes(p) && e == |t| && s < e
    requires forall j :: s <= j < e ==> p[j] != '/'
    requires s == 0 || p[s - 1] == '/'
    ensures BaseName(p) == p[s..e]
  {
    assert t == p[..e];
    assert t[s..] == p[s..e];
    forall j | s <= j < e ensures t[j] != '/' {
      assert t[j] == p[j];
    }
    AfterLastSlashAt(t, s);
  }

  /** In t, the text after the last `/` starts at s when s follows a `/` (or is 0) and no `/` comes later. */
  lemma AfterLastSlashAt(t: string, s: nat)
    requires s < |t|
    requires forall j :: s <= j < |t| ==> t[j] != '/'
    requires s == 0 || t[s - 1] == '/'
    ensures AfterLastSlash(t) == t[s..]
  {
    if s == 0 {
      LastIndexOfIs(t, '/', None);
    } else {
      LastIndexOfIs(t, '/', Some(s - 1));
    }
  }

  /** After the whole loop, its return statement gives the extension of p[startPart..e]. */
  lemma FinalState(p: string, e: nat, st: ScanState)
    requires 0 < e <= |p| && st.startPart < e
    requires st.end.Some? ==> st.startPart < st.end.value <= |p|
    requires st.startDot.Some? ==> st.end.Some? && st.startPart <= st.startDot.value < st.end.value
    requires ScannedFrom(p, e, st.startPart, st.end, st.startDot, st.preDotState)
    ensures ScanResult(p, st) == SegmentExt(p[st.startPart..e])
  {
    var s := st.startPart;
    var b := p[s..e];
    assert st.end == Some(e);
    match st.startDot
    case None =>
      LastIndexOfIs(b, '.', None);
    case Some(d) =>
      LastIndexOfIs(b, '.', Some(d - s));
      var dotdot := st.preDotState == 1 && d == e - 1 && d == s + 1;
      assert dotdot <==> b == ".." by {
        if b == ".." {
          assert d == s + 1 && e == s + 2;
        }
        if dotdot {
          assert b == "..";
        }
      }
      assert st.preDotState == 0 <==> d - s == 0;
      assert b[d - s..] == p[d..e];
  }

  /** index.js:24-30: the content type for a file name. */
  function GetMimeType(filename: string): (r: string)
    ensures r in {PDF, PNG, JPEG, OCTET_STREAM}
  {
    var ext := LowerStr(ExtName(filename));
    if ext == ".pdf" then PDF
    else if ext == ".png" then PNG
    else if ext == ".jpg" || ext == ".jpeg" then JPEG
    else OCTET_STREAM
  }

  /** The last segment ends, ignoring case, in `suffix`, with at least one character before it. */
  predicate HasExtension(filename: string, suffix: string)
  {
    var b := BaseName(filename);
    |b| > |suffix| && LowerStr(b[|b| - |suffix|..]) == suffix
  }

  /**
   * For an extension made of `.` and lower-case letters, `extname` lower-cases
   * to it exactly when the last segment ends in it (in any case) after at least
   * one other character.
   */
  lemma ExtensionBySuffix(filename: string, suffix: string)
    requires |suffix| >= 2 && suffix[0] == '.'
    requires forall k :: 1 <= k < |suffix| ==> 'a' <= suffix[k] <= 'z'
    ensures LowerStr(ExtName(filename)) == suffix <==> HasExtension(filename, suffix)
  {
    ExtNameIsLastSegmentExt(filename);
    if HasExtension(filename, suffix) {
      SuffixGivesExt(filename, suffix);
    }
    if LowerStr(LastSegmentExt(filename)) == suffix {
      ExtGivesSuffix(filename, suffix);
    }
  }

  /** A last segment ending in `suffix` after another character has that extension. */
  lemma SuffixGivesExt(filename: string, suffix: string)
    requires |suffix| >= 2 && suffix[0] == '.'
    requires forall k :: 1 <= k < |suffix| ==> 'a' <= suffix[k] <= 'z'
    requires HasExtension(filename, suffix)
    ensures LowerStr(LastSegmentExt(filename)) == suffix
  {
    var b := BaseName(filename);
    var d := |b| - |suffix|;
    assert LowerStr(b[d..])[0] == '.';
    assert b[d] == '.';
    forall j | d < j < |b| ensures b[j] != '.' {
      assert LowerStr(b[d..])[j - d] == suffix[j - d];
    }
    LastIndexOfIs(b, '.', Some(d));
    assert b != ".." by { assert |b| > 2; }
    assert LastSegmentExt(filename) == b[d..];
  }

  /** An extension that lower-cases to `suffix` ends the last segment after another character. */
  lemma ExtGivesSuffix(filename: string, suffix: string)
    requires |suffix| >= 2
    requires LowerStr(LastSegmentExt(filename)) == suffix
    ensures HasExtension(filename, suffix)
  {
    var b := BaseName(filename);
    var e := LastSegmentExt(filename);
    assert |e| == |suffix|;
    assert e == b[|b| - |suffix|..];
  }

  /** index.js:26: `.pdf` in any case gives application/pdf. */
  lemma PdfBySuffix(filename: string)
    ensures GetMimeType(filename) == PDF <==> HasExtension(filename, ".pdf")
  {
    ExtensionBySuffix(filename, ".pdf");
  }

  /** index.js:27: `.png` in any case gives image/png. */
  lemma PngBySuffix(filename: string)
    ensures GetMimeType(filename) == PNG <==> HasExtension(filename, ".png")
  {
    ExtensionBySuffix(filename, ".png");
  }

  /** index.js:28: both `.jpg` and `.jpeg`, in any case, give image/jpeg. */
  lemma JpegBySuffix(filename: string)
    ensures GetMimeType(filename) == JPEG <==> HasExtension(filename, ".jpg") || HasExtension(filename, ".jpeg")
  {
    var ext := LowerStr(ExtName(filename));
    assert GetMimeType(filename) == JPEG <==> ext == ".jpg" || ext == ".jpeg" by {
      assert JPEG != PDF && JPEG != PNG && JPEG != OCTET_STREAM;
      assert ext == ".jpg" || ext == ".jpeg" ==> ext != ".pdf" && ext != ".png";
    }
    ExtensionBySuffix(filename, ".jpg");
    ExtensionBySuffix(filename, ".jpeg");
  }

  /** index.js:29: every other name falls back to application/octet-stream. */
  lemma FallbackBySuffix(filename: string)
    ensures GetMimeType(filename) == OCTET_STREAM <==>
      !HasExtension(filename, ".pdf") && !HasExtension(filename, ".png") &&
      !HasExtension(filename, ".jpg") && !HasExtension(filename, ".jpeg")
  {
    PdfBySuffix(filename);
    PngBySuffix(filename);
    JpegBySuffix(filename);
  }
}

/** `get_file_name` (elodie/filesystem.py): the destination file name of a
    photo or video, `<date>-<origin or camera model>-<base>.<extension>` in
    lower case, where the base is the file's own name with any date prefix
    of an earlier import removed and the sanitised title appended. */
module FileName {
  import opened Common
  import opened MediaMetadata
  import Paths

  /** The strftime mask of the date part of a file name. */
  const DateMask: string := "%Y-%m-%d_%H-%M-%S"

  /** The shape of the prefix an earlier import left on a name:
      `\d{4}-\d{2}-\d{2}_\d{2}-\d{2}-\d{2}-`, `d` standing for a digit. */
  const StampShape: string := "dddd-dd-dd_dd-dd-dd-"

  predicate ShapeChar(shape: char, c: char) {
    if shape == 'd' then IsAsciiDigit(c) else c == shape
  }

  predicate IsStamp(s: string) {
    |s| == |StampShape| && forall i :: 0 <= i < |s| ==> ShapeChar(StampShape[i], s[i])
  }

  /** `re.sub('^\d{4}-\d{2}-\d{2}_\d{2}-\d{2}-\d{2}-', '', b)`. */
  function StripStamp(b: string): (r: string)
    ensures EndsWith(b, r)
    ensures r == b || (|b| >= |StampShape| && IsStamp(b[..|StampShape|]) && r == b[|StampShape|..])
  {
    if |b| >= |StampShape| && IsStamp(b[..|StampShape|]) then b[|StampShape|..] else b
  }

  /** A stamp in front of a name is removed, and only the stamp. */
  lemma StripStampOfStamped(stamp: string, rest: string)
    requires IsStamp(stamp)
    ensures StripStamp(stamp + rest) == rest
  {
    assert (stamp + rest)[..|StampShape|] == stamp;
  }

  /** A name that does not begin with a stamp is kept. */
  lemma StripStampUnstamped(b: string)
    requires !(|b| >= |StampShape| && IsStamp(b[..|StampShape|]))
    ensures StripStamp(b) == b
  {
  }

  /** The base of the file name before the title is applied: the stem of a
      non-empty `original_name`, otherwise `base_name` without its stamp,
      falling back to `base_name` when nothing else remains. */
  function BaseOf(md: Metadata): (r: string)
    ensures NonEmpty(md.originalName) ==> r + Paths.SplitExt(md.originalName.value).1 == md.originalName.value
    ensures !NonEmpty(md.originalName) ==> EndsWith(md.baseName, r) && (|r| > 0 || |md.baseName| == 0)
    ensures !NonEmpty(md.originalName) && |md.baseName| > |StampShape| && IsStamp(md.baseName[..|StampShape|]) ==>
      r == md.baseName[|StampShape|..]
    ensures !NonEmpty(md.originalName) && !(|md.baseName| >= |StampShape| && IsStamp(md.baseName[..|StampShape|])) ==>
      r == md.baseName
    ensures !NonEmpty(md.originalName) && IsStamp(md.baseName) ==> r == md.baseName
  {
    if NonEmpty(md.originalName) then Paths.SplitExt(md.originalName.value).0
    else
      var stripped := StripStamp(md.baseName);
      if |stripped| == 0 then md.baseName else stripped
  }

  // -----------------------------------------------------------------------
  // Sanitising the title: re.sub('\W+', '-', t)

  /** Text in the form `Sanitize` produces: word characters and dashes,
      never two non-word characters in a row. */
  predicate Sanitized(s: string) {
    && (forall i :: 0 <= i < |s| ==> IsWordChar(s[i]) || s[i] == '-')
    && (forall i :: 0 <= i < |s| - 1 ==> IsWordChar(s[i]) || IsWordChar(s[i + 1]))
  }

  /** `t` without its leading non-word characters. */
  function SkipNonWord(t: string): (r: string)
    ensures |r| <= |t| && r == t[|t| - |r|..]
    ensures |r| > 0 ==> IsWordChar(r[0])
    ensures |t| > 0 && !IsWordChar(t[0]) ==> |r| < |t|
    decreases |t|
  {
    if |t| > 0 && !IsWordChar(t[0]) then SkipNonWord(t[1..]) else t
  }

  /** Every maximal run of non-word characters becomes one `-`. */
  function Sanitize(t: string): (r: string)
    ensures Sanitized(r)
    ensures |t| > 0 ==> |r| > 0 && (IsWordChar(t[0]) ==> r[0] == t[0]) && (!IsWordChar(t[0]) ==> r[0] == '-')
    decreases |t|
  {
    if |t| == 0 then ""
    else if IsWordChar(t[0]) then [t[0]] + Sanitize(t[1..])
    else "-" + Sanitize(SkipNonWord(t))
  }

  /** Sanitised text is its own sanitisation. */
  lemma {:induction false} SanitizedIsFixed(s: string)
    requires Sanitized(s)
    ensures Sanitize(s) == s
    decreases |s|
  {
    if |s| > 0 {
      assert Sanitized(s[1..]) by {
        forall i | 0 <= i < |s[1..]| - 1
          ensures IsWordChar(s[1..][i]) || IsWordChar(s[1..][i + 1])
        {
          assert s[1..][i] == s[i + 1] && s[1..][i + 1] == s[i + 2];
        }
      }
      SanitizedIsFixed(s[1..]);
      assert s == [s[0]] + s[1..];
      if IsWordChar(s[0]) {
        assert Sanitize(s) == [s[0]] + Sanitize(s[1..]);
      } else {
        assert s[0] == '-';
        assert |s| == 1 || IsWordChar(s[1]);
        assert SkipNonWord(s) == s[1..];
        assert Sanitize(s) == "-" + Sanitize(s[1..]);
      }
    }
  }

  /** Sanitised text is its own sanitisation, and only sanitised text is. */
  lemma SanitizeFixed(s: string)
    ensures Sanitize(s) == s <==> Sanitized(s)
  {
    if Sanitized(s) {
      SanitizedIsFixed(s);
    }
  }

  lemma SanitizeIdempotent(t: string)
    ensures Sanitize(Sanitize(t)) == Sanitize(t)
  {
    SanitizeFixed(Sanitize(t));
  }

  predicate AllWord(s: string) {
    forall i :: 0 <= i < |s| ==> IsWordChar(s[i])
  }

  predicate AllNonWord(s: string) {
    forall i :: 0 <= i < |s| ==> !IsWordChar(s[i])
  }

  lemma {:induction false} SkipNonWordRun(n: string, rest: string)
    requires AllNonWord(n) && (|rest| == 0 || IsWordChar(rest[0]))
    ensures SkipNonWord(n + rest) == rest
    decreases |n|
  {
    if |n| == 0 {
      assert n + rest == rest;
    } else {
      assert (n + rest)[0] == n[0];
      assert (n + rest)[1..] == n[1..] + rest;
      SkipNonWordRun(n[1..], rest);
    }
  }

  /** Text of word characters only is kept as it is. */
  lemma {:induction false} SanitizeKeepsWords(w: string)
    requires AllWord(w)
    ensures Sanitize(w) == w
  {
    SanitizedIsFixed(w);
  }

  /** The word characters in front of a maximal run of non-word characters
      are kept, and the whole run becomes a single `-`. */
  lemma {:induction false} SanitizeRun(w: string, n: string, rest: string)
    requires AllWord(w) && |n| > 0 && AllNonWord(n)
    requires |rest| == 0 || IsWordChar(rest[0])
    ensures Sanitize(w + n + rest) == w + "-" + Sanitize(rest)
    decreases |w|
  {
    if |w| == 0 {
      assert w + n + rest == n + rest;
      assert w + "-" + Sanitize(rest) == "-" + Sanitize(rest);
      SanitizeRunStart(n, rest);
    } else {
      SanitizeRun(w[1..], n, rest);
      var t := w[1..] + n + rest;
      SanitizeWordStep(w[0], t, w[1..] + "-" + Sanitize(rest));
      ConsRegroup(w, n, rest);
      ConsRegroup(w, "-", Sanitize(rest));
    }
  }

  lemma SanitizeRunStart(n: string, rest: string)
    requires |n| > 0 && AllNonWord(n)
    requires |rest| == 0 || IsWordChar(rest[0])
    ensures Sanitize(n + rest) == "-" + Sanitize(rest)
  {
    SanitizeFrom(n + rest);
    SkipNonWordRun(n, rest);
  }

  /** A word character in front is kept in front. */
  lemma SanitizeWordStep(c: char, t: string, u: string)
    requires IsWordChar(c) && Sanitize(t) == u
    ensures Sanitize([c] + t) == [c] + u
  {
    var x := [c] + t;
    assert x[0] == c && x[1..] == t;
    SanitizeFrom(x);
  }

  lemma ConsRegroup(w: string, a: string, b: string)
    requires |w| > 0
    ensures [w[0]] + (w[1..] + a + b) == w + a + b
  {
    assert w == [w[0]] + w[1..];
  }

  /** One step of `Sanitize`. */
  lemma SanitizeFrom(t: string)
    requires |t| > 0
    ensures IsWordChar(t[0]) ==> Sanitize(t) == [t[0]] + Sanitize(t[1..])
    ensures !IsWordChar(t[0]) ==> Sanitize(t) == "-" + Sanitize(SkipNonWord(t))
  {
  }

  // -----------------------------------------------------------------------
  // The title

  /** The title as it appears in a file name. */
  function TitlePart(title: string): (r: string)
    ensures Sanitized(r)
  {
    Sanitize(Strip(title))
  }

  /** The base with a non-empty title applied: every `-<title>` is removed
      (leftmost first, non-overlapping), then one `-<title>` is appended. */
  function TitledBase(base: string, title: string): (r: string)
    ensures EndsWith(r, "-" + TitlePart(title))
    ensures |r| <= |base| + 1 + |TitlePart(title)|
  {
    var p := "-" + TitlePart(title);
    var kept := RemoveAll(base, p);
    assert (kept + p)[|kept|..] == p;
    kept + p
  }

  /** Removing every `p` from a text that is `b` followed by `p`, where the
      only occurrence of `p` scanned from the left is the final one, leaves
      `b`. */
  lemma {:induction false} RemoveAllTrailing(b: string, p: string)
    requires |p| > 0
    requires forall i: nat :: i < |b| ==> !OccursAt(b + p, p, i)
    ensures RemoveAll(b + p, p) == b
    decreases |b|
  {
    if |b| == 0 {
      assert (b + p)[..|p|] == p && (b + p)[|p|..] == [];
    } else {
      assert !OccursAt(b + p, p, 0);
      assert (b + p)[1..] == b[1..] + p;
      forall i: nat | i < |b[1..]|
        ensures !OccursAt(b[1..] + p, p, i)
      {
        assert !OccursAt(b + p, p, i + 1);
        assert (b + p)[i + 1..i + 1 + |p|] == (b[1..] + p)[i..i + |p|];
      }
      RemoveAllTrailing(b[1..], p);
      assert b == [b[0]] + b[1..];
    }
  }

  /** A base without any `-<title>` just gets one appended. */
  lemma TitledBaseFresh(base: string, title: string)
    requires forall i: nat :: !OccursAt(base, "-" + TitlePart(title), i)
    ensures TitledBase(base, title) == base + "-" + TitlePart(title)
  {
    RemoveAllAbsent(base, "-" + TitlePart(title));
  }

  /** Applying the title to a base that already ends with it, and holds no
      other occurrence of it, changes nothing. */
  lemma TitledBaseStable(b: string, title: string)
    requires var p := "-" + TitlePart(title);
      forall i: nat :: i < |b| ==> !OccursAt(b + p, p, i)
    ensures TitledBase(b + "-" + TitlePart(title), title) == b + "-" + TitlePart(title)
  {
    var p := "-" + TitlePart(title);
    assert b + "-" + TitlePart(title) == b + p;
    RemoveAllTrailing(b, p);
  }

  /** The removal can itself form a new `-<title>`: for a title `q` that
      starts with a word character, the base `--qq` loses its one
      occurrence `-q` and leaves `-q`, so the result `-q-q` holds the title
      twice (with `q` = `ab`: `--abab` becomes `-ab-ab`). */
  lemma TitleRemovalCanReform(t: string)
    requires |TitlePart(t)| > 0 && TitlePart(t)[0] != '-'
    ensures var q := TitlePart(t);
      TitledBase("--" + q + q, t) == "-" + q + "-" + q
  {
    var q := TitlePart(t);
    var p := "-" + q;
    var s := "--" + q + q;
    assert s[..|p|] != p by {
      assert s[..|p|][1] == '-' != p[1];
    }
    assert s[1..] == p + q;
    assert s[1..][..|p|] == p;
    assert s[1..][|p|..] == q;
    assert RemoveAll(s[1..], p) == q;
  }

  predicate HasUpper(s: string) {
    exists k :: 0 <= k < |s| && 'A' <= s[k] <= 'Z'
  }

  /** No text with an upper-case letter occurs in lower-cased text. */
  lemma AbsentFromLowered(x: string, p: string)
    requires HasUpper(p)
    ensures RemoveAll(Lower(x), p) == Lower(x)
  {
    var k :| 0 <= k < |p| && 'A' <= p[k] <= 'Z';
    forall i: nat ensures !OccursAt(Lower(x), p, i) {
      if i + |p| <= |x| {
        assert Lower(x)[i..i + |p|][k] == Lower(x)[i + k] != p[k];
      }
    }
    RemoveAllAbsent(Lower(x), p);
  }

  /** The removal compares case-sensitively while the file name is lower
      case: when the sanitised title has an upper-case letter, the lowered
      base of an already titled file never contains `-<title>`, so a re-run
      appends the title once more. */
  lemma CapitalisedTitleRepeats(b: string, t: string)
    requires HasUpper(TitlePart(t))
    ensures TitledBase(Lower(TitledBase(b, t)), t)
         == Lower(TitledBase(b, t)) + "-" + TitlePart(t)
  {
    var p := "-" + TitlePart(t);
    assert HasUpper(p) by {
      var k :| 0 <= k < |TitlePart(t)| && 'A' <= TitlePart(t)[k] <= 'Z';
      assert p[k + 1] == TitlePart(t)[k];
    }
    AbsentFromLowered(TitledBase(b, t), p);
  }

  // -----------------------------------------------------------------------
  // The name

  /** The base after the title rule. */
  function TitledBaseOf(md: Metadata): string {
    if NonEmpty(md.title) then TitledBase(BaseOf(md), md.title.value) else BaseOf(md)
  }

  /** The dash-joined parts: the formatted date when there is one, the
      origin when it is not `None` (even when empty) or else the camera
      model when that is not `None`, and the base. */
  function Parts(md: Metadata, fmt: Strftime): seq<string> {
    (if md.dateTaken.Some? then [fmt(DateMask, md.dateTaken.value)] else [])
    + (if md.origin.Some? then [md.origin.value]
       else if md.cameraModel.Some? then [md.cameraModel.value] else [])
    + [TitledBaseOf(md)]
  }

  function FileName(md: Metadata, fmt: Strftime): (r: string)
    ensures forall i :: 0 <= i < |r| ==> !('A' <= r[i] <= 'Z')
  {
    Lower(JoinWith(Parts(md, fmt), "-") + "." + md.extension)
  }

  /** `get_file_name(metadata, ...)`: `None` without metadata. */
  function GetFileName(md: Option<Metadata>, fmt: Strftime): (r: Option<string>)
    ensures r.None? <==> md.None?
    ensures md.Some? ==> r.value == FileName(md.value, fmt)
  {
    if md.None? then None else Some(FileName(md.value, fmt))
  }

  /** The prefix the file name starts with, written as plain
      concatenation. */
  function Prefix(md: Metadata, fmt: Strftime): string {
    (if md.dateTaken.Some? then fmt(DateMask, md.dateTaken.value) + "-" else "")
    + (if md.origin.Some? then md.origin.value + "-"
       else if md.cameraModel.Some? then md.cameraModel.value + "-" else "")
  }

  function OptionPart(o: Option<string>): seq<string> {
    if o.Some? then [o.value] else []
  }

  function OptionPrefix(o: Option<string>): string {
    if o.Some? then o.value + "-" else ""
  }

  lemma JoinParts(first: Option<string>, second: Option<string>, base: string)
    ensures JoinWith(OptionPart(first) + OptionPart(second) + [base], "-")
         == OptionPrefix(first) + OptionPrefix(second) + base
  {
    var rest := OptionPart(second) + [base];
    assert JoinWith(rest, "-") == OptionPrefix(second) + base by {
      if second.Some? {
        JoinWithCons(second.value, [base], "-");
      }
    }
    assert OptionPart(first) + OptionPart(second) + [base] == OptionPart(first) + rest;
    if first.Some? {
      JoinWithCons(first.value, rest, "-");
    }
  }

  /** The file name is the lower case of the prefix, the titled base, a dot
      and the extension. */
  lemma FileNameShape(md: Metadata, fmt: Strftime)
    ensures FileName(md, fmt) == Lower(Prefix(md, fmt) + TitledBaseOf(md) + "." + md.extension)
  {
    var first := if md.dateTaken.Some? then Some(fmt(DateMask, md.dateTaken.value)) else None;
    var second := if md.origin.Some? then md.origin
       else if md.cameraModel.Some? then md.cameraModel else None;
    assert Parts(md, fmt) == OptionPart(first) + OptionPart(second) + [TitledBaseOf(md)];
    assert Prefix(md, fmt) == OptionPrefix(first) + OptionPrefix(second);
    JoinParts(first, second, TitledBaseOf(md));
  }

  // -----------------------------------------------------------------------
  // Re-running the importer on its own output

  /** The importer's output is stable under a re-run when the name carries
      no origin, camera model or title: a file named `<date>-<base>` (the
      date formatted into a stamp) gets the same name again. */
  lemma RerunStable(md: Metadata, fmt: Strftime)
    requires md.dateTaken.Some? && IsStamp(fmt(DateMask, md.dateTaken.value) + "-")
    requires md.origin.None? && md.cameraModel.None? && !NonEmpty(md.title)
    requires !NonEmpty(md.originalName) && |BaseOf(md)| > 0
    ensures var renamed := md.(baseName := fmt(DateMask, md.dateTaken.value) + "-" + BaseOf(md));
      FileName(renamed, fmt) == FileName(md, fmt)
  {
    var stamp := fmt(DateMask, md.dateTaken.value) + "-";
    var renamed := md.(baseName := stamp + BaseOf(md));
    StripStampOfStamped(stamp, BaseOf(md));
    assert BaseOf(renamed) == BaseOf(md);
    FileNameShape(md, fmt);
    FileNameShape(renamed, fmt);
  }

  /** Applying the title rule twice gives what applying it once gives,
      provided `-<title>` occurs in the base followed by `-<title>` only at
      the end. */
  lemma TitledBaseTwice(b: string, title: string)
    requires var p := "-" + TitlePart(title);
      forall i: nat :: i < |b| ==> !OccursAt(b + p, p, i)
    ensures TitledBase(TitledBase(b, title), title) == TitledBase(b, title)
  {
    var p := "-" + TitlePart(title);
    OnlyTrailingAbsent(b, p);
    TitledBaseFresh(b, title);
    TitledBaseStable(b, title);
  }

  /** If `p` occurs in `b + p` only at the end, it does not occur in `b`. */
  lemma OnlyTrailingAbsent(b: string, p: string)
    requires |p| > 0
    requires forall i: nat :: i < |b| ==> !OccursAt(b + p, p, i)
    ensures forall i: nat :: !OccursAt(b, p, i)
  {
    forall i: nat
      ensures !OccursAt(b, p, i)
    {
      if i + |p| <= |b| {
        assert (b + p)[i..i + |p|] == b[i..i + |p|];
        assert !OccursAt(b + p, p, i);
      }
    }
  }

  /** The same holds with a title, provided `-<title>` occurs in the base
      followed by `-<title>` only at the end. */
  lemma RerunStableTitled(md: Metadata, fmt: Strftime)
    requires md.dateTaken.Some? && IsStamp(fmt(DateMask, md.dateTaken.value) + "-")
    requires md.origin.None? && md.cameraModel.None? && NonEmpty(md.title)
    requires !NonEmpty(md.originalName) && |BaseOf(md)| > 0
    requires var p := "-" + TitlePart(md.title.value);
      forall i: nat :: i < |BaseOf(md)| ==> !OccursAt(BaseOf(md) + p, p, i)
    ensures var renamed := md.(baseName := fmt(DateMask, md.dateTaken.value) + "-" + TitledBaseOf(md));
      FileName(renamed, fmt) == FileName(md, fmt)
  {
    var stamp := fmt(DateMask, md.dateTaken.value) + "-";
    var renamed := md.(baseName := stamp + TitledBaseOf(md));
    StripStampOfStamped(stamp, TitledBaseOf(md));
    assert BaseOf(renamed) == TitledBaseOf(md);
    TitledBaseTwice(BaseOf(md), md.title.value);
    assert TitledBaseOf(renamed) == TitledBaseOf(md);
    FileNameShape(md, fmt);
    FileNameShape(renamed, fmt);
  }

  /** With a non-empty `original_name` the base comes from it and
      `base_name` is ignored, so a re-import under any file name, with or
      without an origin or camera model, reproduces the name. */
  lemma RerunWithOriginalName(md: Metadata, fmt: Strftime, renamed: string)
    requires NonEmpty(md.originalName)
    ensures FileName(md.(baseName := renamed), fmt) == FileName(md, fmt)
  {
    assert BaseOf(md.(baseName := renamed)) == BaseOf(md);
    assert Parts(md.(baseName := renamed), fmt) == Parts(md, fmt);
  }

  /** With an origin, a re-run does not give the same name: the origin is
      kept in the base and added again, so the name grows. */
  lemma RerunWithOriginGrows(md: Metadata, fmt: Strftime)
    requires md.dateTaken.Some? && IsStamp(fmt(DateMask, md.dateTaken.value) + "-")
    requires md.origin.Some? && !NonEmpty(md.title) && !NonEmpty(md.originalName)
    ensures var renamed := md.(baseName := fmt(DateMask, md.dateTaken.value) + "-" + md.origin.value + "-" + BaseOf(md));
      |FileName(renamed, fmt)| > |FileName(md, fmt)|
  {
    var stamp := fmt(DateMask, md.dateTaken.value) + "-";
    var rest := md.origin.value + "-" + BaseOf(md);
    var renamed := md.(baseName := stamp + rest);
    Regroup(stamp, md.origin.value, BaseOf(md));
    StripStampOfStamped(stamp, rest);
    assert TitledBaseOf(renamed) == rest;
    assert Prefix(renamed, fmt) == Prefix(md, fmt);
    FileNameLength(md, fmt);
    FileNameLength(renamed, fmt);
  }

  /** Without an origin but with a camera model, the re-imported name is
      longer too: the model is put in front of the base again. */
  lemma RerunWithModelGrows(md: Metadata, fmt: Strftime)
    requires md.dateTaken.Some? && IsStamp(fmt(DateMask, md.dateTaken.value) + "-")
    requires md.origin.None? && md.cameraModel.Some? && !NonEmpty(md.title) && !NonEmpty(md.originalName)
    ensures var renamed := md.(baseName := fmt(DateMask, md.dateTaken.value) + "-" + md.cameraModel.value + "-" + BaseOf(md));
      |FileName(renamed, fmt)| > |FileName(md, fmt)|
  {
    var stamp := fmt(DateMask, md.dateTaken.value) + "-";
    var rest := md.cameraModel.value + "-" + BaseOf(md);
    var renamed := md.(baseName := stamp + rest);
    Regroup(stamp, md.cameraModel.value, BaseOf(md));
    StripStampOfStamped(stamp, rest);
    assert TitledBaseOf(renamed) == rest;
    assert Prefix(renamed, fmt) == Prefix(md, fmt);
    FileNameLength(md, fmt);
    FileNameLength(renamed, fmt);
  }

  lemma Regroup(stamp: string, origin: string, base: string)
    ensures stamp + origin + "-" + base == stamp + (origin + "-" + base)
  {
  }

  lemma FileNameLength(md: Metadata, fmt: Strftime)
    ensures |FileName(md, fmt)| == |Prefix(md, fmt)| + |TitledBaseOf(md)| + 1 + |md.extension|
  {
    FileNameShape(md, fmt);
  }
}

/** The folder-path pattern language of elodie/filesystem.py: a pattern such
    as `%Y/%album|%origin|"Unsorted"` is parsed into a definition, one
    segment per `%`-run, each an ordered list of fallback alternatives, and
    a definition is evaluated against a metadata record into the
    destination directory. */
module FolderPattern {
  import opened Common
  import opened MediaMetadata
  import Paths

  /** One fallback: a field name (or a quoted literal) and its strftime
      mask. */
  datatype Alternative = Alternative(name: string, mask: string)
  type Segment = seq<Alternative>
  type Definition = seq<Segment>

  /** Runs that are parsed as a single alternative with an empty mask. */
  const DefaultParts: seq<string> := ["album", "city", "state", "country", "origin"]
  const TemporalNames: seq<string> := ["date", "day", "month", "year", "Y", "m", "d"]
  const DirectNames: seq<string> := ["album", "camera_make", "camera_model", "origin"]
  const Undated: string := "undated"

  // -----------------------------------------------------------------------
  // Parsing

  /** Length of the longest prefix of `p` without a slash. */
  function RunLength(p: string): (n: nat)
    ensures n <= |p|
    ensures forall i :: 0 <= i < n ==> p[i] != '/'
    ensures n < |p| ==> p[n] == '/'
    decreases |p|
  {
    if |p| == 0 || p[0] == '/' then 0 else 1 + RunLength(p[1..])
  }

  /** `re.findall('(\%[^/]+)', p)`: left to right, every `%` followed by at
      least one non-slash character starts a match that runs up to the next
      slash; scanning resumes after the match. */
  function FindRuns(p: string): (r: seq<string>)
    ensures forall i :: 0 <= i < |r| ==> |r[i]| >= 2 && r[i][0] == '%' && !Contains(r[i], '/')
    decreases |p|
  {
    if |p| < 2 then []
    else if p[0] == '%' && p[1] != '/' then
      var n := 1 + RunLength(p[1..]);
      [p[..n]] + FindRuns(p[n..])
    else FindRuns(p[1..])
  }

  /** The pattern has a `%` followed by something other than a slash. */
  predicate HasFieldToken(p: string) {
    exists i :: 0 <= i < |p| - 1 && p[i] == '%' && p[i + 1] != '/'
  }

  lemma {:induction false} FindRunsEmpty(p: string)
    ensures FindRuns(p) == [] <==> !HasFieldToken(p)
    decreases |p|
  {
    if |p| < 2 {
    } else if p[0] == '%' && p[1] != '/' {
      assert HasFieldToken(p) by { assert p[0] == '%' && p[1] != '/'; }
    } else {
      FindRunsEmpty(p[1..]);
      if HasFieldToken(p) {
        var i :| 0 <= i < |p| - 1 && p[i] == '%' && p[i + 1] != '/';
        assert i > 0;
        assert p[1..][i - 1] == '%' && p[1..][i] != '/';
      }
      if HasFieldToken(p[1..]) {
        var i :| 0 <= i < |p[1..]| - 1 && p[1..][i] == '%' && p[1..][i + 1] != '/';
        assert p[i + 1] == '%' && p[i + 2] != '/';
      }
    }
  }

  /** A run as `FindRuns` returns it. */
  predicate WellFormedRun(r: string) {
    |r| >= 2 && r[0] == '%' && !Contains(r, '/')
  }

  /** The run of non-slashes in front of a slash ends at the slash. */
  lemma {:induction false} RunLengthBeforeSlash(s: string, t: string)
    requires !Contains(s, '/')
    ensures RunLength(s) == |s|
    ensures RunLength(s + "/" + t) == |s|
    decreases |s|
  {
    if |s| > 0 {
      assert s[0] != '/';
      assert !Contains(s[1..], '/') by {
        forall i | 0 <= i < |s[1..]|
          ensures s[1..][i] != '/'
        {
          assert s[1..][i] == s[i + 1];
        }
      }
      RunLengthBeforeSlash(s[1..], t);
      assert (s + "/" + t)[1..] == s[1..] + "/" + t;
    }
  }

  /** The runs of the pattern `%foo/%bar` are `%foo` and `%bar`: joining
      well-formed runs with `/` and scanning the result gives back the
      same runs, in the same order. */
  lemma {:induction false} FindRunsOfJoin(runs: seq<string>)
    requires forall i :: 0 <= i < |runs| ==> WellFormedRun(runs[i])
    ensures FindRuns(JoinWith(runs, "/")) == runs
    decreases |runs|
  {
    if |runs| == 1 {
      FindRunsFront(runs[0], "");
      assert runs[0] + "" == runs[0];
    } else if |runs| > 1 {
      var rest := runs[1..];
      FindRunsOfJoin(rest);
      FindRunsOfJoinStep(runs[0], rest);
      assert [runs[0]] + rest == runs;
    }
  }

  lemma FindRunsOfJoinStep(r: string, rest: seq<string>)
    requires WellFormedRun(r) && |rest| > 0 && WellFormedRun(rest[0])
    requires FindRuns(JoinWith(rest, "/")) == rest
    ensures FindRuns(JoinWith([r] + rest, "/")) == [r] + rest
  {
    JoinWithCons(r, rest, "/");
    var joined := JoinWith(rest, "/");
    FindRunsFront(r, "/" + joined);
    SlashRegroup(r, joined);
    FindRunsAfterSlash(rest);
  }

  lemma SlashRegroup(r: string, j: string)
    ensures r + "/" + j == r + ("/" + j)
  {
  }

  /** The slash before the next run is skipped. */
  lemma FindRunsAfterSlash(rest: seq<string>)
    requires |rest| > 0 && WellFormedRun(rest[0])
    ensures FindRuns("/" + JoinWith(rest, "/")) == FindRuns(JoinWith(rest, "/"))
  {
    JoinWithStarts(rest, "/");
    FindRunsSkip(JoinWith(rest, "/"));
  }

  lemma JoinWithStarts(parts: seq<string>, sep: string)
    requires |parts| > 0
    ensures StartsWith(JoinWith(parts, sep), parts[0])
  {
    if |parts| > 1 {
      assert JoinWith(parts, sep)[..|parts[0]|] == parts[0];
    }
  }

  /** A well-formed run followed by a slash or the end is found whole. */
  lemma FindRunsFront(r: string, tail: string)
    requires WellFormedRun(r)
    requires |tail| == 0 || tail[0] == '/'
    ensures FindRuns(r + tail) == [r] + FindRuns(tail)
  {
    var p := r + tail;
    RunOfFront(r, tail);
    assert p[0] == '%' && p[1] != '/';
    assert FindRuns(p) == [p[..|r|]] + FindRuns(p[|r|..]);
    assert p[..|r|] == r && p[|r|..] == tail;
  }

  lemma RunOfFront(r: string, tail: string)
    requires WellFormedRun(r)
    requires |tail| == 0 || tail[0] == '/'
    ensures RunLength((r + tail)[1..]) == |r| - 1
  {
    assert !Contains(r[1..], '/') by {
      forall i | 0 <= i < |r[1..]|
        ensures r[1..][i] != '/'
      {
        assert r[1..][i] == r[i + 1];
      }
    }
    assert (r + tail)[1..] == r[1..] + tail;
    if |tail| == 0 {
      RunLengthBeforeSlash(r[1..], "");
      assert r[1..] + tail == r[1..];
    } else {
      assert r[1..] + tail == r[1..] + "/" + tail[1..];
      RunLengthBeforeSlash(r[1..], tail[1..]);
    }
  }

  /** A leading slash is skipped before a text that starts with a run. */
  lemma FindRunsSkip(j: string)
    requires |j| >= 2 && j[0] == '%'
    ensures FindRuns("/" + j) == FindRuns(j)
  {
    assert ("/" + j)[1..] == j;
  }

  // -----------------------------------------------------------------------
  // Where the runs are found, for any pattern

  /** The first index at or after `i` holding a slash, or the length. */
  function RunEnd(p: string, i: nat): (e: nat)
    requires i <= |p|
    ensures i <= e <= |p|
    ensures e == |p| || p[e] == '/'
    ensures forall t :: i <= t < e ==> p[t] != '/'
    decreases |p| - i
  {
    if i == |p| || p[i] == '/' then i else RunEnd(p, i + 1)
  }

  /** A match of `%[^/]+`: the index it starts at and the one it stops
      before. */
  datatype Match = Match(start: nat, stop: nat)

  /** The matches of `%[^/]+` in `p` from index `from` on, scanning left to
      right by index: each starts at a `%` followed by a non-slash
      character and stops at the next slash or the end, and the scan
      resumes where it stopped. Every match lies in the pattern, runs at
      least two characters and stops at a slash or the end, and each one
      stops before the next starts. */
  function Matches(p: string, from: nat): (m: seq<Match>)
    requires from <= |p|
    ensures forall k :: 0 <= k < |m| ==>
      && from <= m[k].start && m[k].start + 2 <= m[k].stop <= |p|
      && p[m[k].start] == '%' && (m[k].stop == |p| || p[m[k].stop] == '/')
    ensures forall k :: 0 <= k < |m| - 1 ==> m[k].stop <= m[k + 1].start
    decreases |p| - from
  {
    if from + 1 >= |p| then []
    else if p[from] == '%' && p[from + 1] != '/' then
      [Match(from, RunEnd(p, from + 1))] + Matches(p, RunEnd(p, from + 1))
    else Matches(p, from + 1)
  }

  /** The text of each match. */
  function Spans(p: string, m: seq<Match>): (r: seq<string>)
    requires forall k :: 0 <= k < |m| ==> m[k].start <= m[k].stop <= |p|
    ensures |r| == |m|
    ensures forall k :: 0 <= k < |m| ==> r[k] == p[m[k].start..m[k].stop]
  {
    seq(|m|, k requires 0 <= k < |m| => p[m[k].start..m[k].stop])
  }

  lemma {:induction false} RunLengthEnd(p: string, i: nat)
    requires i <= |p|
    ensures RunLength(p[i..]) == RunEnd(p, i) - i
    decreases |p| - i
  {
    if i < |p| && p[i] != '/' {
      assert p[i..][1..] == p[i + 1..];
      RunLengthEnd(p, i + 1);
    }
  }

  lemma SpansCons(p: string, first: Match, rest: seq<Match>)
    requires first.start <= first.stop <= |p|
    requires forall k :: 0 <= k < |rest| ==> rest[k].start <= rest[k].stop <= |p|
    ensures Spans(p, [first] + rest) == [p[first.start..first.stop]] + Spans(p, rest)
  {
  }

  /** Scanning the pattern from `from` gives the texts of the matches from
      `from`. */
  lemma {:induction false} FindRunsFrom(p: string, from: nat)
    requires from <= |p|
    ensures FindRuns(p[from..]) == Spans(p, Matches(p, from))
    decreases |p| - from
  {
    var q := p[from..];
    if from + 1 < |p| {
      assert q[0] == p[from] && q[1] == p[from + 1];
      if p[from] == '%' && p[from + 1] != '/' {
        var e := RunEnd(p, from + 1);
        RunLengthEnd(p, from + 1);
        assert q[1..] == p[from + 1..];
        assert q[..e - from] == p[from..e] && q[e - from..] == p[e..];
        FindRunsFrom(p, e);
        SpansCons(p, Match(from, e), Matches(p, e));
      } else {
        assert q[1..] == p[from + 1..];
        FindRunsFrom(p, from + 1);
      }
    }
  }

  /** Index `j` lies inside one of the matches `m`. */
  predicate Covered(m: seq<Match>, j: int) {
    exists k :: 0 <= k < |m| && m[k].start <= j < m[k].stop
  }

  /** A `%` followed by a character other than a slash lies inside some
      match: the scan misses nothing. */
  lemma {:induction false} TokenCovered(p: string, from: nat, j: nat)
    requires from <= j && j + 1 < |p| && p[j] == '%' && p[j + 1] != '/'
    ensures Covered(Matches(p, from), j)
    decreases |p| - from
  {
    var m := Matches(p, from);
    if p[from] == '%' && p[from + 1] != '/' {
      var e := RunEnd(p, from + 1);
      assert m == [Match(from, e)] + Matches(p, e);
      if j < e {
        assert m[0].start <= j < m[0].stop;
      } else {
        TokenCovered(p, e, j);
        var i :| 0 <= i < |Matches(p, e)| && Matches(p, e)[i].start <= j < Matches(p, e)[i].stop;
        assert m[i + 1] == Matches(p, e)[i];
      }
    } else {
      assert m == Matches(p, from + 1);
      TokenCovered(p, from + 1, j);
    }
  }

  /** `FindRuns` is the left-to-right longest-match scan of `%[^/]+` on any
      pattern: the runs are the texts of the matches, each match starts at
      a `%`, runs at least two characters and stops at a slash or the end
      (so it cannot be extended), each stops before the next starts, and
      every `%` followed by a non-slash character lies inside one of them. */
  lemma FindRunsMaximal(p: string)
    ensures var m := Matches(p, 0);
      && |FindRuns(p)| == |m|
      && (forall k :: 0 <= k < |m| ==> FindRuns(p)[k] == p[m[k].start..m[k].stop])
      && (forall k :: 0 <= k < |m| ==>
            p[m[k].start] == '%' && m[k].start + 2 <= m[k].stop && (m[k].stop == |p| || p[m[k].stop] == '/'))
      && (forall k :: 0 <= k < |m| - 1 ==> m[k].stop <= m[k + 1].start)
      && (forall j :: 0 <= j < |p| - 1 && p[j] == '%' && p[j + 1] != '/' ==> Covered(m, j))
  {
    FindRunsFrom(p, 0);
    assert p[0..] == p;
    forall j | 0 <= j < |p| - 1 && p[j] == '%' && p[j + 1] != '/' {
      TokenCovered(p, 0, j);
    }
  }

  /** `part.replace('%', '')`. */
  function RemovePercent(s: string): (r: string)
    ensures !Contains(r, '%')
    ensures |r| <= |s|
    decreases |s|
  {
    if |s| == 0 then ""
    else if s[0] == '%' then RemovePercent(s[1..])
    else [s[0]] + RemovePercent(s[1..])
  }

  function Names(seg: Segment): seq<string> {
    seq(|seg|, i requires 0 <= i < |seg| => seg[i].name)
  }

  /** The segment one `%`-run parses to. */
  function SegmentOf(run: string): (seg: Segment)
    ensures |seg| >= 1
    ensures JoinWith(Names(seg), "|") == RemovePercent(run)
    ensures RemovePercent(run) in DefaultParts ==> seg == [Alternative(RemovePercent(run), "")]
    ensures RemovePercent(run) !in DefaultParts ==>
      forall j :: 0 <= j < |seg| ==> seg[j].mask == "%" + seg[j].name && !Contains(seg[j].name, '|')
  {
    var part := RemovePercent(run);
    if part in DefaultParts then [Alternative(part, "")]
    else
      var names := Split(part, '|');
      SplitJoin(part, '|');
      var seg := seq(|names|, i requires 0 <= i < |names| => Alternative(names[i], "%" + names[i]));
      assert Names(seg) == names;
      seg
  }

  /** `get_folder_path_definition(pattern)` without the cache: a pattern
      without a `%`-token is rejected; otherwise there is one segment per
      `%`-run, in order. */
  function ParseDefinition(pattern: string): (r: Result<Definition>)
    ensures r.Failure? <==> !HasFieldToken(pattern)
    ensures r.Failure? ==> r.error == BadFolderPathDefinition(pattern)
    ensures r.Success? ==> |r.value| == |FindRuns(pattern)| && |r.value| >= 1
    ensures r.Success? ==> forall i :: 0 <= i < |r.value| ==> r.value[i] == SegmentOf(FindRuns(pattern)[i])
  {
    FindRunsEmpty(pattern);
    var runs := FindRuns(pattern);
    if |runs| == 0 then Failure(BadFolderPathDefinition(pattern))
    else Success(seq(|runs|, i requires 0 <= i < |runs| => SegmentOf(runs[i])))
  }

  /** The definition and the cache after a lookup. */
  datatype Lookup = Lookup(definition: Result<Definition>, cache: Option<Definition>)

  /** `get_folder_path_definition(pattern)` on an instance whose cache is
      `cache`: a cached definition is returned whatever the pattern; a
      successful parse is cached; a failed one leaves the cache empty. */
  function GetFolderPathDefinition(cache: Option<Definition>, pattern: string): (r: Lookup)
    ensures cache.Some? ==> r == Lookup(Success(cache.value), cache)
    ensures cache.None? ==> r.definition == ParseDefinition(pattern)
    ensures (r.cache.Some? && r.definition.Success? && r.cache.value == r.definition.value)
         || (r.cache.None? && r.definition.Failure?)
  {
    match cache
    case Some(d) => Lookup(Success(d), cache)
    case None =>
      var parsed := ParseDefinition(pattern);
      if parsed.Success? then Lookup(parsed, Some(parsed.value)) else Lookup(parsed, None)
  }

  /** Once one pattern has been parsed, every later lookup returns its
      definition, whatever pattern it asks for. */
  lemma LaterPatternsIgnored(first: string, later: string)
    requires HasFieldToken(first)
    ensures var after := GetFolderPathDefinition(None, first).cache;
      GetFolderPathDefinition(after, later).definition == ParseDefinition(first)
  {
  }

  // -----------------------------------------------------------------------
  // Evaluation

  /** How `get_folder_path` treats an alternative, by its name. */
  datatype FieldKind = Temporal | Direct | Literal | Unhandled

  function KindOf(name: string): FieldKind {
    if name in TemporalNames then Temporal
    else if name in DirectNames then Direct
    else if |name| >= 1 && name[0] == '"' && name[|name| - 1] == '"' then Literal
    else Unhandled
  }

  /** `metadata[name]` for the fields a direct alternative can name. */
  function DirectValue(md: Metadata, name: string): Option<string> {
    match name
    case "album" => md.album
    case "camera_make" => md.cameraMake
    case "camera_model" => md.cameraModel
    case _ => md.origin
  }

  /** `name[1:-1]` for a quoted literal (a lone `"` gives the empty text). */
  function Unquote(name: string): (r: string)
    ensures |name| >= 2 ==> r == name[1..|name| - 1]
  {
    if |name| >= 2 then name[1..|name| - 1] else ""
  }

  /** A directory component together with the kind of alternative that
      produced it. */
  datatype Component = Component(text: string, kind: FieldKind)

  datatype SegmentOut = SegmentOut(components: seq<Component>, undated: bool)

  /** The inner loop of `get_folder_path` over one segment's alternatives.
      `undated` is the flag carried across segments: once an `undated`
      component has been produced, later undated temporal alternatives
      produce nothing. */
  function EvalSegment(alts: Segment, md: Metadata, undated: bool, fmt: Strftime): (r: SegmentOut)
    ensures undated ==> r.undated
    decreases |alts|
  {
    if |alts| == 0 then SegmentOut([], undated)
    else
      var a := alts[0];
      match KindOf(a.name)
      case Temporal =>
        if md.dateTaken.Some? then SegmentOut([Component(fmt(a.mask, md.dateTaken.value), Temporal)], undated)
        else SegmentOut(if undated then [] else [Component(Undated, Temporal)], true)
      case Direct =>
        var v := DirectValue(md, a.name);
        if NonEmpty(v) then SegmentOut([Component(v.value, Direct)], undated)
        else EvalSegment(alts[1..], md, undated, fmt)
      case Literal =>
        var rest := EvalSegment(alts[1..], md, undated, fmt);
        SegmentOut([Component(Unquote(a.name), Literal)] + rest.components, rest.undated)
      case Unhandled =>
        EvalSegment(alts[1..], md, undated, fmt)
  }

  /** The outer loop of `get_folder_path`: segments in order, threading the
      undated flag. */
  function EvalPath(def: Definition, md: Metadata, undated: bool, fmt: Strftime): (r: SegmentOut)
    ensures undated ==> r.undated
    decreases |def|
  {
    if |def| == 0 then SegmentOut([], undated)
    else
      var first := EvalSegment(def[0], md, undated, fmt);
      var rest := EvalPath(def[1..], md, first.undated, fmt);
      SegmentOut(first.components + rest.components, rest.undated)
  }

  function Texts(cs: seq<Component>): (r: seq<string>)
    ensures |r| == |cs|
    ensures forall i :: 0 <= i < |cs| ==> r[i] == cs[i].text
  {
    seq(|cs|, i requires 0 <= i < |cs| => cs[i].text)
  }

  datatype FolderPath = FolderPath(path: Result<string>, cache: Option<Definition>)

  /** `get_folder_path(metadata, target_config)`: the components joined
      with `os.path.join`, which raises when there are none. */
  function GetFolderPath(cache: Option<Definition>, pattern: string, md: Metadata, fmt: Strftime): (r: FolderPath)
    ensures r.cache == GetFolderPathDefinition(cache, pattern).cache
    ensures GetFolderPathDefinition(cache, pattern).definition.Failure? ==>
      r.path == Failure(GetFolderPathDefinition(cache, pattern).definition.error)
    ensures GetFolderPathDefinition(cache, pattern).definition.Success? ==>
      var cs := EvalPath(GetFolderPathDefinition(cache, pattern).definition.value, md, false, fmt).components;
      (r.path.Failure? <==> |cs| == 0) && (r.path.Success? ==> r.path.value == Paths.JoinAll(Texts(cs)))
  {
    var lookup := GetFolderPathDefinition(cache, pattern);
    match lookup.definition
    case Failure(e) => FolderPath(Failure(e), lookup.cache)
    case Success(def) =>
      var cs := EvalPath(def, md, false, fmt).components;
      if |cs| == 0 then FolderPath(Failure(TypeError("join() missing 1 required positional argument")), lookup.cache)
      else FolderPath(Success(Paths.JoinAll(Texts(cs))), lookup.cache)
  }

  // -----------------------------------------------------------------------
  // What a segment produces, stated without the loop

  /** An alternative that ends its segment: a temporal one always does, a
      direct one when its field is non-empty. */
  predicate Stops(a: Alternative, md: Metadata) {
    KindOf(a.name) == Temporal || (KindOf(a.name) == Direct && NonEmpty(DirectValue(md, a.name)))
  }

  /** Index of the first alternative that ends the segment, or the length
      when none does. */
  function StopIndex(alts: Segment, md: Metadata): (s: nat)
    ensures s <= |alts|
    ensures forall j :: 0 <= j < s ==> !Stops(alts[j], md)
    ensures s < |alts| ==> Stops(alts[s], md)
    decreases |alts|
  {
    if |alts| == 0 then 0
    else if Stops(alts[0], md) then 0
    else 1 + StopIndex(alts[1..], md)
  }

  /** The unquoted literals among `alts`, in order. */
  function Literals(alts: Segment): (r: seq<Component>)
    ensures forall i :: 0 <= i < |r| ==> r[i].kind == Literal
    decreases |alts|
  {
    if |alts| == 0 then []
    else if KindOf(alts[0].name) == Literal then [Component(Unquote(alts[0].name), Literal)] + Literals(alts[1..])
    else Literals(alts[1..])
  }

  /** What the alternative that ends a segment contributes. */
  function StopComponent(a: Alternative, md: Metadata, undated: bool, fmt: Strftime): seq<Component>
    requires Stops(a, md)
  {
    if KindOf(a.name) == Direct then [Component(DirectValue(md, a.name).value, Direct)]
    else if md.dateTaken.Some? then [Component(fmt(a.mask, md.dateTaken.value), Temporal)]
    else if undated then []
    else [Component(Undated, Temporal)]
  }

  predicate StopsTemporal(alts: Segment, md: Metadata) {
    StopIndex(alts, md) < |alts| && KindOf(alts[StopIndex(alts, md)].name) == Temporal
  }

  /** One alternative that does not end the segment, then the rest. */
  lemma EvalSegmentStep(alts: Segment, md: Metadata, undated: bool, fmt: Strftime)
    requires |alts| > 0 && !Stops(alts[0], md)
    ensures var rest := EvalSegment(alts[1..], md, undated, fmt);
      EvalSegment(alts, md, undated, fmt)
        == (if KindOf(alts[0].name) == Literal
            then SegmentOut([Component(Unquote(alts[0].name), Literal)] + rest.components, rest.undated)
            else rest)
  {
  }

  lemma LiteralsStep(alts: Segment, s: nat)
    requires 0 < s <= |alts|
    ensures Literals(alts[..s])
        == (if KindOf(alts[0].name) == Literal then [Component(Unquote(alts[0].name), Literal)] else [])
           + Literals(alts[1..][..s - 1])
  {
    assert alts[..s][1..] == alts[1..][..s - 1];
    assert alts[..s][0] == alts[0];
  }

  /** A segment produces every quoted literal before its stopping
      alternative, with the quotes removed, followed by what the stopping
      alternative contributes; unhandled names and empty direct fields
      contribute nothing, and nothing after the stop is looked at. */
  lemma {:induction false} SegmentReference(alts: Segment, md: Metadata, undated: bool, fmt: Strftime)
    ensures var s := StopIndex(alts, md);
      EvalSegment(alts, md, undated, fmt).components
        == Literals(alts[..s]) + (if s < |alts| then StopComponent(alts[s], md, undated, fmt) else [])
    ensures EvalSegment(alts, md, undated, fmt).undated
        == (undated || (StopsTemporal(alts, md) && md.dateTaken.None?))
    decreases |alts|
  {
    if |alts| > 0 {
      var s := StopIndex(alts, md);
      if Stops(alts[0], md) {
        assert s == 0 && alts[..s] == [];
      } else {
        var tail := alts[1..];
        var t := StopIndex(tail, md);
        assert s == 1 + t;
        SegmentReference(tail, md, undated, fmt);
        EvalSegmentStep(alts, md, undated, fmt);
        LiteralsStep(alts, s);
        if s < |alts| {
          assert tail[t] == alts[s];
        }
        assert StopsTemporal(alts, md) == StopsTemporal(tail, md);
      }
    }
  }

  /** An alternative whose name the loop does not handle (`city`, `state`
      and `country` among them) contributes nothing, wherever it stands in
      its segment. */
  lemma {:induction false} UnhandledIgnored(pre: Segment, a: Alternative, post: Segment, md: Metadata,
                                           undated: bool, fmt: Strftime)
    requires KindOf(a.name) == Unhandled
    ensures EvalSegment(pre + [a] + post, md, undated, fmt) == EvalSegment(pre + post, md, undated, fmt)
    decreases |pre|
  {
    var alts := pre + [a] + post;
    if |pre| == 0 {
      assert alts[0] == a && alts[1..] == post;
      assert pre + post == post;
    } else {
      assert alts[0] == pre[0] && (pre + post)[0] == pre[0];
      assert alts[1..] == pre[1..] + [a] + post;
      assert (pre + post)[1..] == pre[1..] + post;
      UnhandledIgnored(pre[1..], a, post, md, undated, fmt);
    }
  }

  lemma CityIsUnhandled()
    ensures KindOf("city") == Unhandled
  {
    assert "city" !in TemporalNames && "city" !in DirectNames;
  }

  /** An `album` alternative with no album falls through to the rest. */
  lemma EmptyAlbumSkipped(md: Metadata, mask: string, rest: Segment, undated: bool, fmt: Strftime)
    requires !NonEmpty(md.album)
    ensures EvalSegment([Alternative("album", mask)] + rest, md, undated, fmt) == EvalSegment(rest, md, undated, fmt)
  {
    var alts := [Alternative("album", mask)] + rest;
    assert "album" !in TemporalNames && KindOf("album") == Direct;
    assert alts[0].name == "album" && alts[1..] == rest;
  }

  /** A lone quoted alternative gives its text. */
  lemma QuotedAlone(text: string, mask: string, md: Metadata, undated: bool, fmt: Strftime)
    ensures EvalSegment([Alternative("\"" + text + "\"", mask)], md, undated, fmt)
         == SegmentOut([Component(text, Literal)], undated)
  {
    var name := "\"" + text + "\"";
    assert name[0] == '"' && name[|name| - 1] == '"';
    assert name !in TemporalNames by {
      forall x | x in TemporalNames
        ensures x[0] != '"'
      {
      }
    }
    assert name !in DirectNames by {
      forall x | x in DirectNames
        ensures x[0] != '"'
      {
      }
    }
    assert name[1..|name| - 1] == text;
    assert [Alternative(name, mask)][1..] == [];
  }

  /** The location fallback `%album|%city|"Unknown Location"`: without an
      album the segment gives "Unknown Location" whatever the city, because
      `city` is never looked up. */
  lemma CityFallbackUnreached(md: Metadata, undated: bool, fmt: Strftime, m1: string, m2: string, m3: string)
    requires !NonEmpty(md.album)
    ensures EvalSegment([Alternative("album", m1), Alternative("city", m2), Alternative("\"Unknown Location\"", m3)],
                        md, undated, fmt)
         == SegmentOut([Component("Unknown Location", Literal)], undated)
  {
    var album, city := Alternative("album", m1), Alternative("city", m2);
    var lit := Alternative("\"Unknown Location\"", m3);
    CityIsUnhandled();
    UnhandledIgnored([album], city, [lit], md, undated, fmt);
    assert [album] + [city] + [lit] == [album, city, lit];
    EmptyAlbumSkipped(md, m1, [lit], undated, fmt);
    assert lit.name == "\"" + "Unknown Location" + "\"";
    QuotedAlone("Unknown Location", m3, md, undated, fmt);
  }

  /** Alternatives appended after one that ends the segment are never
      tried. */
  lemma {:induction false} AfterStopIgnored(alts: Segment, more: Segment, md: Metadata, undated: bool, fmt: Strftime)
    requires StopIndex(alts, md) < |alts|
    ensures EvalSegment(alts + more, md, undated, fmt) == EvalSegment(alts, md, undated, fmt)
    decreases |alts|
  {
    assert (alts + more)[0] == alts[0];
    if !Stops(alts[0], md) {
      assert (alts + more)[1..] == alts[1..] + more;
      AfterStopIgnored(alts[1..], more, md, undated, fmt);
    }
  }

  // -----------------------------------------------------------------------
  // The undated flag

  function CountTemporal(cs: seq<Component>): nat
    decreases |cs|
  {
    if |cs| == 0 then 0
    else (if cs[0].kind == Temporal then 1 else 0) + CountTemporal(cs[1..])
  }

  lemma {:induction false} CountTemporalConcat(a: seq<Component>, b: seq<Component>)
    ensures CountTemporal(a + b) == CountTemporal(a) + CountTemporal(b)
    decreases |a|
  {
    if |a| == 0 {
      assert a + b == b;
    } else {
      assert (a + b)[0] == a[0];
      assert (a + b)[1..] == a[1..] + b;
      CountTemporalConcat(a[1..], b);
    }
  }

  lemma LiteralsNotTemporal(alts: Segment)
    ensures CountTemporal(Literals(alts)) == 0
    decreases |alts|
  {
    if |alts| > 0 {
      if KindOf(alts[0].name) == Literal {
        assert ([Component(Unquote(alts[0].name), Literal)] + Literals(alts[1..]))[1..] == Literals(alts[1..]);
      }
      LiteralsNotTemporal(alts[1..]);
    }
  }

  /** A segment produces one temporal component when it stops on a temporal
      alternative, unless there is no date and `undated` was already
      produced, and none otherwise. */
  lemma SegmentTemporalCount(alts: Segment, md: Metadata, undated: bool, fmt: Strftime)
    ensures CountTemporal(EvalSegment(alts, md, undated, fmt).components)
        == (if StopsTemporal(alts, md) && (md.dateTaken.Some? || !undated) then 1 else 0)
  {
    SegmentReference(alts, md, undated, fmt);
    var s := StopIndex(alts, md);
    LiteralsNotTemporal(alts[..s]);
    if s < |alts| {
      CountTemporalConcat(Literals(alts[..s]), StopComponent(alts[s], md, undated, fmt));
    } else {
      assert Literals(alts[..s]) + [] == Literals(alts[..s]);
    }
  }

  predicate SomeSegmentStopsTemporal(def: Definition, md: Metadata) {
    exists i :: 0 <= i < |def| && StopsTemporal(def[i], md)
  }

  /** Without a date, however many segments stop on a temporal alternative,
      the path holds at most one temporal component (the `undated` one):
      exactly one if some segment stops on a temporal alternative and the
      flag was not yet set, none otherwise. */
  lemma {:induction false} UndatedAtMostOnce(def: Definition, md: Metadata, undated: bool, fmt: Strftime)
    requires md.dateTaken.None?
    ensures CountTemporal(EvalPath(def, md, undated, fmt).components)
        == (if !undated && SomeSegmentStopsTemporal(def, md) then 1 else 0)
    ensures EvalPath(def, md, undated, fmt).undated == (undated || SomeSegmentStopsTemporal(def, md))
    decreases |def|
  {
    if |def| > 0 {
      var first := EvalSegment(def[0], md, undated, fmt);
      SegmentTemporalCount(def[0], md, undated, fmt);
      SegmentReference(def[0], md, undated, fmt);
      UndatedAtMostOnce(def[1..], md, first.undated, fmt);
      CountTemporalConcat(first.components, EvalPath(def[1..], md, first.undated, fmt).components);
      assert SomeSegmentStopsTemporal(def, md)
        <==> StopsTemporal(def[0], md) || SomeSegmentStopsTemporal(def[1..], md) by {
        if SomeSegmentStopsTemporal(def, md) && !StopsTemporal(def[0], md) {
          var i :| 0 <= i < |def| && StopsTemporal(def[i], md);
          assert def[1..][i - 1] == def[i];
        }
        if SomeSegmentStopsTemporal(def[1..], md) {
          var i :| 0 <= i < |def[1..]| && StopsTemporal(def[1..][i], md);
          assert def[i + 1] == def[1..][i];
        }
      }
    }
  }

  /** With a date, every temporal component is the date formatted with the
      mask of some alternative of the definition. */
  lemma {:induction false} DatedComponentsFormatted(def: Definition, md: Metadata, undated: bool, fmt: Strftime)
    requires md.dateTaken.Some?
    ensures forall c :: c in EvalPath(def, md, undated, fmt).components && c.kind == Temporal ==>
      exists i, j :: 0 <= i < |def| && 0 <= j < |def[i]| && c.text == fmt(def[i][j].mask, md.dateTaken.value)
    decreases |def|
  {
    if |def| > 0 {
      var first := EvalSegment(def[0], md, undated, fmt);
      SegmentReference(def[0], md, undated, fmt);
      var s := StopIndex(def[0], md);
      LiteralsNotTemporal(def[0][..s]);
      DatedComponentsFormatted(def[1..], md, first.undated, fmt);
      forall c | c in first.components && c.kind == Temporal
        ensures exists j :: 0 <= j < |def[0]| && c.text == fmt(def[0][j].mask, md.dateTaken.value)
      {
      }
      forall c | c in EvalPath(def[1..], md, first.undated, fmt).components && c.kind == Temporal
        ensures exists i, j :: 0 <= i < |def| && 0 <= j < |def[i]| && c.text == fmt(def[i][j].mask, md.dateTaken.value)
      {
        var i, j :| 0 <= i < |def[1..]| && 0 <= j < |def[1..][i]| && c.text == fmt(def[1..][i][j].mask, md.dateTaken.value);
        assert def[i + 1] == def[1..][i];
      }
    }
  }
}

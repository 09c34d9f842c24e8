/**
 * The resolution probe of CameraCapabilities.java: each device log line
 * becomes a CameraFormat, and valid formats are merged into a TreeSet so
 * that one entry per resolution survives, holding the highest frame rate
 * seen. The regular-expression matching is taken as input: a log line is
 * the list of its `WxH` matches, in order, and its `max ... fps=N` match,
 * if any. The TreeSet is a sequence kept strictly ascending under the
 * comparator, which is what `toArray` returns.
 */
module CameraCapabilitiesModel {
  import opened Wrappers
  import opened CameraFormats

  /** What the two patterns find in one log line; each number has at most four digits. */
  datatype LogLine = LogLine(resolutions: seq<(nat, nat)>, maxFps: Option<nat>)

  /** The `while (resMatcher.find())` loop: every match overwrites width and height. */
  function ApplyResolutions(f: CameraFormat, matches: seq<(nat, nat)>): (r: CameraFormat)
    ensures r.frameRate == f.frameRate
    ensures |matches| == 0 ==> r == f
    ensures |matches| > 0 ==> r.width == matches[|matches| - 1].0 && r.height == matches[|matches| - 1].1
    decreases |matches|
  {
    if |matches| == 0 then f
    else ApplyResolutions(f.(width := matches[0].0, height := matches[0].1), matches[1..])
  }

  /** The format one log line describes: the last resolution match and the fps match, or zeros. */
  function ParseLine(line: LogLine): (f: CameraFormat)
    ensures |line.resolutions| == 0 ==> f.width == 0 && f.height == 0
    ensures |line.resolutions| > 0 ==>
              (f.width, f.height) == line.resolutions[|line.resolutions| - 1]
    ensures line.maxFps.None? ==> f.frameRate == 0.0 && !IsValid(f)
    ensures line.maxFps.Some? ==> f.frameRate == line.maxFps.value as real
  {
    var f := ApplyResolutions(DefaultFormat(), line.resolutions);
    match line.maxFps
    case None => f
    case Some(fps) => f.(frameRate := fps as real)
  }

  /** The TreeSet's order: strictly ascending, so no two entries share a resolution. */
  predicate StrictlySorted(s: seq<CameraFormat>) {
    forall i, j :: 0 <= i < j < |s| ==> Compare(s[i], s[j]) < 0
  }

  /** The set has no entry with the resolution of `f`. */
  predicate Absent(s: seq<CameraFormat>, f: CameraFormat) {
    forall e :: e in s ==> Compare(e, f) != 0
  }

  /** The iterator walk: the position of the entry comparing equal to `f`, if there is one. */
  function Find(s: seq<CameraFormat>, f: CameraFormat): (r: Option<nat>)
    ensures r.None? <==> Absent(s, f)
    ensures r.Some? ==> r.value < |s| && Compare(s[r.value], f) == 0
  {
    if |s| == 0 then None
    else if Compare(s[0], f) == 0 then Some(0)
    else match Find(s[1..], f)
      case None => None
      case Some(i) => Some(i + 1)
  }

  /** `set.add(f)` for a resolution that is not yet present. */
  function Insert(s: seq<CameraFormat>, f: CameraFormat): (r: seq<CameraFormat>)
    requires StrictlySorted(s) && Absent(s, f)
    ensures StrictlySorted(r)
    ensures |r| == |s| + 1
    ensures forall e :: e in r <==> e in s || e == f
  {
    if |s| == 0 then [f]
    else if Compare(f, s[0]) < 0 then [f] + s
    else
      var t := Insert(s[1..], f);
      SortedCons(s[0], t);
      [s[0]] + t
  }

  /** Putting an element below every entry in front of a sorted set keeps it sorted. */
  lemma SortedCons(a: CameraFormat, t: seq<CameraFormat>)
    requires StrictlySorted(t) && forall x :: x in t ==> Compare(a, x) < 0
    ensures StrictlySorted([a] + t)
  {
    forall i, j | 0 <= i < j < |[a] + t| ensures Compare(([a] + t)[i], ([a] + t)[j]) < 0 {
      assert ([a] + t)[j] == t[j - 1];
      if i > 0 {
        assert ([a] + t)[i] == t[i - 1];
      }
    }
  }

  /** `iter.remove()` on the entry at position `i`. */
  function RemoveAt(s: seq<CameraFormat>, i: nat): (r: seq<CameraFormat>)
    requires StrictlySorted(s) && i < |s|
    ensures StrictlySorted(r)
    ensures |r| == |s| - 1
    ensures forall e :: e in r <==> e in s && e != s[i]
  {
    s[..i] + s[i + 1..]
  }

  /** Entries of a strictly sorted set that share a resolution are the same entry. */
  lemma SameResolutionSameEntry(s: seq<CameraFormat>, a: CameraFormat, b: CameraFormat)
    requires StrictlySorted(s) && a in s && b in s && Compare(a, b) == 0
    ensures a == b
  {
    var i :| 0 <= i < |s| && s[i] == a;
    var j :| 0 <= j < |s| && s[j] == b;
  }

  /**
   * One pass of the log callback body for the format `f` a line produced:
   * an invalid format is dropped; a new resolution is added; an existing
   * one is replaced only when its frame rate is strictly lower than `f`'s.
   */
  function Merge(s: seq<CameraFormat>, f: CameraFormat): (r: seq<CameraFormat>)
    requires StrictlySorted(s)
    ensures StrictlySorted(r)
    ensures !IsValid(f) ==> r == s
    ensures IsValid(f) && Absent(s, f) ==> forall x :: x in r <==> x in s || x == f
    ensures forall e :: e in s && Compare(e, f) == 0 && IsValid(f) ==>
              if e.frameRate < f.frameRate then forall x :: x in r <==> (x in s && x != e) || x == f
              else r == s
  {
    if !IsValid(f) then s
    else match Find(s, f)
      case None => Insert(s, f)
      case Some(i) =>
        if s[i].frameRate < f.frameRate then
          var t := RemoveAt(s, i);
          assert Absent(t, f) by {
            forall e | e in t ensures Compare(e, f) != 0 {
              if Compare(e, f) == 0 {
                SameResolutionSameEntry(s, e, s[i]);
              }
            }
          }
          MergeCases(s, f, i);
          Insert(t, f)
        else
          MergeCases(s, f, i);
          s
  }

  /** The entry `Find` reports is the only one with `f`'s resolution. */
  lemma MergeCases(s: seq<CameraFormat>, f: CameraFormat, i: nat)
    requires StrictlySorted(s) && i < |s| && Compare(s[i], f) == 0
    ensures forall e :: e in s && Compare(e, f) == 0 ==> e == s[i]
  {
    forall e | e in s && Compare(e, f) == 0 ensures e == s[i] {
      SameResolutionSameEntry(s, e, s[i]);
    }
  }

  /** `probeResolutions`: merge the formats of the log lines in the order they arrive. */
  function Probe(lines: seq<LogLine>): (r: seq<CameraFormat>)
    ensures StrictlySorted(r)
  {
    if |lines| == 0 then []
    else Merge(Probe(lines[..|lines| - 1]), ParseLine(lines[|lines| - 1]))
  }

  /** Every entry of `r` is the format of one of the lines. */
  predicate FromLines(r: seq<CameraFormat>, lines: seq<LogLine>) {
    forall e :: e in r ==> exists i :: 0 <= i < |lines| && ParseLine(lines[i]) == e
  }

  /** Every valid line's resolution has an entry whose frame rate is at least the line's. */
  predicate Dominates(r: seq<CameraFormat>, lines: seq<LogLine>) {
    forall i :: 0 <= i < |lines| && IsValid(ParseLine(lines[i])) ==>
      exists e :: e in r && Compare(e, ParseLine(lines[i])) == 0 && ParseLine(lines[i]).frameRate <= e.frameRate
  }

  /** One merge keeps every entry valid and drawn from the lines, now including the new one. */
  lemma MergeKeepsFromLines(s: seq<CameraFormat>, init: seq<LogLine>, line: LogLine)
    requires StrictlySorted(s) && FromLines(s, init) && forall e :: e in s ==> IsValid(e)
    ensures var r := Merge(s, ParseLine(line));
            FromLines(r, init + [line]) && forall e :: e in r ==> IsValid(e)
  {
    var f := ParseLine(line);
    var r := Merge(s, f);
    var lines := init + [line];
    forall e | e in r ensures IsValid(e) && exists i :: 0 <= i < |lines| && ParseLine(lines[i]) == e {
      if e == f {
        assert ParseLine(lines[|init|]) == e;
      } else {
        assert e in s;
        var i :| 0 <= i < |init| && ParseLine(init[i]) == e;
        assert ParseLine(lines[i]) == e;
      }
    }
  }

  /** One merge keeps a dominating entry for every valid line, now including the new one. */
  lemma MergeKeepsDominates(s: seq<CameraFormat>, init: seq<LogLine>, line: LogLine)
    requires StrictlySorted(s) && Dominates(s, init)
    ensures Dominates(Merge(s, ParseLine(line)), init + [line])
  {
    var f := ParseLine(line);
    var r := Merge(s, f);
    var lines := init + [line];
    forall i | 0 <= i < |lines| && IsValid(ParseLine(lines[i]))
      ensures exists e :: e in r && Compare(e, ParseLine(lines[i])) == 0 && ParseLine(lines[i]).frameRate <= e.frameRate
    {
      var p := ParseLine(lines[i]);
      if i == |init| {
        assert p == f;
        match Find(s, f)
        case None =>
          assert f in r && Compare(f, p) == 0;
        case Some(k) =>
          var e := s[k];
          if e.frameRate < f.frameRate {
            assert f in r && Compare(f, p) == 0;
          } else {
            assert e in r && Compare(e, p) == 0;
          }
      } else {
        assert p == ParseLine(init[i]);
        var e :| e in s && Compare(e, p) == 0 && p.frameRate <= e.frameRate;
        if e !in r {
          assert IsValid(f) && Compare(e, f) == 0 && e.frameRate < f.frameRate;
          assert f in r && Compare(f, p) == 0;
        }
      }
    }
  }

  /** In a set with one entry per resolution, a dominating entry is the maximum for its resolution. */
  lemma DominatesIsMaximum(r: seq<CameraFormat>, lines: seq<LogLine>)
    requires StrictlySorted(r) && Dominates(r, lines)
    ensures forall e, i :: (e in r && 0 <= i < |lines| && IsValid(ParseLine(lines[i])) &&
                            Compare(ParseLine(lines[i]), e) == 0) ==> ParseLine(lines[i]).frameRate <= e.frameRate
  {
    forall e, i | e in r && 0 <= i < |lines| && IsValid(ParseLine(lines[i])) && Compare(ParseLine(lines[i]), e) == 0
      ensures ParseLine(lines[i]).frameRate <= e.frameRate
    {
      var p := ParseLine(lines[i]);
      var e' :| e' in r && Compare(e', p) == 0 && p.frameRate <= e'.frameRate;
      SameResolutionSameEntry(r, e, e');
    }
  }

  /** The facts about a probe result that carry over from one line to the next. */
  predicate ProbeInvariant(r: seq<CameraFormat>, lines: seq<LogLine>) {
    && StrictlySorted(r)
    && (forall e :: e in r ==> IsValid(e))
    && FromLines(r, lines)
    && Dominates(r, lines)
  }

  /** The invariant holds after every prefix of the log, by induction on the lines. */
  lemma {:induction false} ProbeKeepsInvariant(lines: seq<LogLine>)
    ensures ProbeInvariant(Probe(lines), lines)
  {
    if |lines| > 0 {
      var n := |lines| - 1;
      ProbeKeepsInvariant(lines[..n]);
      assert lines == lines[..n] + [lines[n]];
      MergeKeepsFromLines(Probe(lines[..n]), lines[..n], lines[n]);
      MergeKeepsDominates(Probe(lines[..n]), lines[..n], lines[n]);
    }
  }

  /**
   * After any sequence of log lines the probe result is sorted by width
   * then height with one entry per resolution, holds only valid formats
   * that some line produced, has an entry for every valid line's
   * resolution, and each entry carries the highest frame rate any line
   * reported for its resolution.
   */
  lemma ProbeResult(lines: seq<LogLine>)
    ensures StrictlySorted(Probe(lines))
    ensures forall e :: e in Probe(lines) ==> IsValid(e)
    ensures FromLines(Probe(lines), lines)
    ensures Dominates(Probe(lines), lines)
    ensures forall e, i :: (e in Probe(lines) && 0 <= i < |lines| && IsValid(ParseLine(lines[i])) &&
                            Compare(ParseLine(lines[i]), e) == 0) ==> ParseLine(lines[i]).frameRate <= e.frameRate
  {
    ProbeKeepsInvariant(lines);
    DominatesIsMaximum(Probe(lines), lines);
  }
}

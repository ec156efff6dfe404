/**
 * Cutting a text at a one-character delimiter, the way the index builder
 * does it twice: lines are cut at '\n' and tokens inside a line at ' '.
 * The text is scanned left to right; a segment is captured only when its
 * delimiter is seen, so whatever follows the last delimiter is never
 * captured.
 */
module Segmenting {

  /** The state of the scan: the segments closed so far, and the text since the last cut. */
  datatype Scan = Scan(segs: seq<string>, pending: string)

  /** Scanning `s` for `d`, one character at a time. */
  function Cut(s: string, d: char): Scan
    decreases |s|
  {
    if s == [] then Scan([], [])
    else
      var prev := Cut(s[..|s| - 1], d);
      if s[|s| - 1] == d then Scan(prev.segs + [prev.pending], [])
      else Scan(prev.segs, prev.pending + [s[|s| - 1]])
  }

  /**
   * The `d`-terminated segments of `s`, in order, each without its
   * delimiter. The text after the last `d` is not a segment.
   */
  function Segments(s: string, d: char): seq<string>
  {
    Cut(s, d).segs
  }

  /** What follows the last `d` of `s`: the text no segment captures. */
  function Leftover(s: string, d: char): string
  {
    Cut(s, d).pending
  }

  /** Each segment followed by its delimiter, concatenated. */
  function Join(segs: seq<string>, d: char): string
    decreases |segs|
  {
    if segs == [] then []
    else Join(segs[..|segs| - 1], d) + segs[|segs| - 1] + [d]
  }

  /** Scanning one more character. */
  lemma CutSnoc(s: string, c: char, d: char)
    ensures Cut(s + [c], d) ==
            if c == d then Scan(Segments(s, d) + [Leftover(s, d)], [])
            else Scan(Segments(s, d), Leftover(s, d) + [c])
  {
    assert (s + [c])[..|s|] == s;
  }

  /**
   * One step of a scan that keeps the start `cut` of the pending text:
   * a delimiter at `i` closes the segment `s[cut..i]`, anything else
   * extends the pending text.
   */
  lemma CutAt(s: string, cut: nat, i: nat, d: char)
    requires cut <= i < |s|
    requires s[cut..i] == Leftover(s[..i], d)
    ensures s[i] == d ==>
              Segments(s[..i + 1], d) == Segments(s[..i], d) + [s[cut..i]] &&
              s[i + 1..i + 1] == Leftover(s[..i + 1], d)
    ensures s[i] != d ==>
              Segments(s[..i + 1], d) == Segments(s[..i], d) &&
              s[cut..i + 1] == Leftover(s[..i + 1], d)
  {
    assert s[..i + 1] == s[..i] + [s[i]];
    CutSnoc(s[..i], s[i], d);
    assert s[cut..i + 1] == s[cut..i] + [s[i]];
  }

  /** There are exactly as many segments as delimiters. */
  lemma {:induction false} SegmentsCount(s: string, d: char)
    ensures |Segments(s, d)| == multiset(s)[d]
    decreases |s|
  {
    if s != [] {
      var n := |s| - 1;
      SegmentsCount(s[..n], d);
      assert s == s[..n] + [s[n]];
      CutSnoc(s[..n], s[n], d);
    }
  }

  /** No segment, and not the leftover, holds the delimiter. */
  lemma {:induction false} SegmentsFree(s: string, d: char)
    ensures forall k :: 0 <= k < |Segments(s, d)| ==> d !in Segments(s, d)[k]
    ensures d !in Leftover(s, d)
    decreases |s|
  {
    if s != [] {
      var n := |s| - 1;
      SegmentsFree(s[..n], d);
      assert s == s[..n] + [s[n]];
      CutSnoc(s[..n], s[n], d);
    }
  }

  /**
   * The segments, each put back with its delimiter, followed by the
   * leftover, rebuild `s`.
   */
  lemma {:induction false} SegmentsJoin(s: string, d: char)
    ensures Join(Segments(s, d), d) + Leftover(s, d) == s
    decreases |s|
  {
    if s != [] {
      var n := |s| - 1;
      var segs, rest := Segments(s[..n], d), Leftover(s[..n], d);
      SegmentsJoin(s[..n], d);
      assert s == s[..n] + [s[n]];
      CutSnoc(s[..n], s[n], d);
      if s[n] == d {
        assert (segs + [rest])[..|segs|] == segs;
      }
    }
  }

  /** A delimiter-free piece only extends the pending text. */
  lemma {:induction false} CutFree(s: string, t: string, d: char)
    requires d !in t
    ensures Segments(s + t, d) == Segments(s, d)
    ensures Leftover(s + t, d) == Leftover(s, d) + t
    decreases |t|
  {
    if t == [] {
      assert s + t == s;
    } else {
      var n := |t| - 1;
      CutFree(s, t[..n], d);
      assert s + t == (s + t[..n]) + [t[n]];
      assert t == t[..n] + [t[n]];
      CutSnoc(s + t[..n], t[n], d);
    }
  }

  /** Cutting a joined list of delimiter-free segments gives the list back. */
  lemma {:induction false} SegmentsOfJoin(segs: seq<string>, d: char)
    requires forall k :: 0 <= k < |segs| ==> d !in segs[k]
    ensures Segments(Join(segs, d), d) == segs
    ensures Leftover(Join(segs, d), d) == []
    decreases |segs|
  {
    if segs != [] {
      var n := |segs| - 1;
      var prefix := Join(segs[..n], d);
      SegmentsOfJoin(segs[..n], d);
      CutFree(prefix, segs[n], d);
      assert Leftover(prefix + segs[n], d) == segs[n] by {
        assert [] + segs[n] == segs[n];
      }
      CutSnoc(prefix + segs[n], d, d);
      assert Join(segs, d) == prefix + segs[n] + [d];
      assert segs == segs[..n] + [segs[n]];
    }
  }
}

/**
 Both input files of the responder are read as lines and grouped into maximal
 runs of non-blank lines: an entry of the keyword file, a paragraph of the
 default file. This module defines that grouping declaratively, reading the
 lines from the front, and proves the facts the line-by-line parsers need.
 */
module Runs {
  import opened JavaText

  /**
   What reading a file produced. `Missing`: the file could not be opened.
   `Complete(lines)`: every line was read. `Broken(lines)`: these lines were
   read, then reading failed, so the loop over lines ended by an exception.
   */
  datatype Source = Missing | Complete(lines: seq<string>) | Broken(lines: seq<string>)
  {
    /** The lines the parsing loop gets to see. */
    function Lines(): seq<string> {
      if Missing? then [] else lines
    }
  }

  /** A non-empty group of lines none of which is blank. */
  ghost predicate IsRun(run: seq<string>) {
    run != [] && forall i :: 0 <= i < |run| ==> !IsBlank(run[i])
  }

  /** The length of the run of non-blank lines at the front of `lines`. */
  function RunLength(lines: seq<string>): (n: nat)
    ensures n <= |lines|
    decreases |lines|
  {
    if lines == [] || IsBlank(lines[0]) then 0 else 1 + RunLength(lines[1..])
  }

  /** The front run is non-blank and ends at a blank line or at the end of `lines`. */
  lemma {:induction false} RunLengthSpec(lines: seq<string>)
    ensures forall i :: 0 <= i < RunLength(lines) ==> !IsBlank(lines[i])
    ensures RunLength(lines) < |lines| ==> IsBlank(lines[RunLength(lines)])
    decreases |lines|
  {
    if !(lines == [] || IsBlank(lines[0])) {
      RunLengthSpec(lines[1..]);
    }
  }

  /** The maximal runs of non-blank lines of `lines`, in file order. */
  function Paragraphs(lines: seq<string>): seq<seq<string>>
    decreases |lines|
  {
    if lines == [] then []
    else if IsBlank(lines[0]) then Paragraphs(lines[1..])
    else
      var n := RunLength(lines);
      [lines[..n]] + Paragraphs(lines[n..])
  }

  /** Every group is a run: non-empty, with no blank line. */
  lemma {:induction false} ParagraphsAreRuns(lines: seq<string>)
    ensures forall j :: 0 <= j < |Paragraphs(lines)| ==> IsRun(Paragraphs(lines)[j])
    decreases |lines|
  {
    if lines != [] {
      if IsBlank(lines[0]) {
        ParagraphsAreRuns(lines[1..]);
      } else {
        var n := RunLength(lines);
        RunLengthSpec(lines);
        ParagraphsAreRuns(lines[n..]);
        var ps := Paragraphs(lines);
        assert ps == [lines[..n]] + Paragraphs(lines[n..]);
        forall j | 0 <= j < |ps| ensures IsRun(ps[j]) {
          if j > 0 {
            assert ps[j] == Paragraphs(lines[n..])[j - 1];
          }
        }
      }
    }
  }

  /** The non-blank lines of `lines`, in order. */
  function NonBlank(lines: seq<string>): seq<string>
    decreases |lines|
  {
    if lines == [] then []
    else (if IsBlank(lines[0]) then [] else [lines[0]]) + NonBlank(lines[1..])
  }

  /** All runs concatenated, in order. */
  function Flatten(ps: seq<seq<string>>): seq<string>
    decreases |ps|
  {
    if ps == [] then [] else ps[0] + Flatten(ps[1..])
  }

  /**
   `lines` without its trailing run of non-blank lines: the prefix whose every
   run has been closed by a blank line.
   */
  function ClosedPrefix(lines: seq<string>): (c: seq<string>)
    ensures |c| <= |lines|
    decreases |lines|
  {
    if lines == [] || IsBlank(lines[|lines| - 1]) then lines
    else ClosedPrefix(lines[..|lines| - 1])
  }

  /** The closed prefix is a prefix ending at a blank line (or empty), and every line after it is non-blank. */
  lemma {:induction false} ClosedPrefixSpec(lines: seq<string>)
    ensures ClosedPrefix(lines) == lines[..|ClosedPrefix(lines)|]
    ensures EndsClosed(ClosedPrefix(lines))
    ensures forall i :: |ClosedPrefix(lines)| <= i < |lines| ==> !IsBlank(lines[i])
    decreases |lines|
  {
    if !(lines == [] || IsBlank(lines[|lines| - 1])) {
      var init := lines[..|lines| - 1];
      ClosedPrefixSpec(init);
      assert forall i :: 0 <= i < |init| ==> init[i] == lines[i];
    }
  }

  /** A prefix ends at a run boundary when it is empty or its last line is blank. */
  ghost predicate EndsClosed(lines: seq<string>) {
    lines == [] || IsBlank(lines[|lines| - 1])
  }

  lemma {:induction false} NonBlankAppend(xs: seq<string>, ys: seq<string>)
    ensures NonBlank(xs + ys) == NonBlank(xs) + NonBlank(ys)
    decreases |xs|
  {
    if xs != [] {
      var head := if IsBlank(xs[0]) then [] else [xs[0]];
      assert (xs + ys)[0] == xs[0];
      assert (xs + ys)[1..] == xs[1..] + ys;
      NonBlankAppend(xs[1..], ys);
      assert NonBlank(xs + ys) == head + (NonBlank(xs[1..]) + NonBlank(ys));
      assert NonBlank(xs) == head + NonBlank(xs[1..]);
    } else {
      assert xs + ys == ys;
    }
  }

  lemma {:induction false} NonBlankOfRun(run: seq<string>)
    requires forall i :: 0 <= i < |run| ==> !IsBlank(run[i])
    ensures NonBlank(run) == run
    decreases |run|
  {
    if run != [] {
      NonBlankOfRun(run[1..]);
    }
  }

  /** Grouping loses no non-blank line, adds none, and keeps their order. */
  lemma {:induction false} ParagraphsCoverNonBlank(lines: seq<string>)
    ensures Flatten(Paragraphs(lines)) == NonBlank(lines)
    decreases |lines|
  {
    if lines != [] {
      if IsBlank(lines[0]) {
        ParagraphsCoverNonBlank(lines[1..]);
      } else {
        var n := RunLength(lines);
        RunLengthSpec(lines);
        ParagraphsCoverNonBlank(lines[n..]);
        var ps := Paragraphs(lines);
        assert ps == [lines[..n]] + Paragraphs(lines[n..]);
        assert ps[1..] == Paragraphs(lines[n..]);
        assert lines == lines[..n] + lines[n..];
        NonBlankAppend(lines[..n], lines[n..]);
        NonBlankOfRun(lines[..n]);
      }
    }
  }

  /** A run followed by a blank line or by nothing is exactly the front run. */
  lemma {:induction false} RunLengthOfRun(run: seq<string>, rest: seq<string>)
    requires forall i :: 0 <= i < |run| ==> !IsBlank(run[i])
    requires rest == [] || IsBlank(rest[0])
    ensures RunLength(run + rest) == |run|
    decreases |run|
  {
    if run != [] {
      assert (run + rest)[1..] == run[1..] + rest;
      RunLengthOfRun(run[1..], rest);
    } else {
      assert run + rest == rest;
    }
  }

  /** Lines before a run boundary and lines after it are grouped independently. */
  lemma {:induction false} ParagraphsAppend(xs: seq<string>, ys: seq<string>)
    requires EndsClosed(xs)
    ensures Paragraphs(xs + ys) == Paragraphs(xs) + Paragraphs(ys)
    decreases |xs|
  {
    if xs == [] {
      assert xs + ys == ys;
    } else if IsBlank(xs[0]) {
      assert (xs + ys)[1..] == xs[1..] + ys;
      ParagraphsAppend(xs[1..], ys);
    } else {
      var n := RunLength(xs);
      RunLengthSpec(xs);
      assert n < |xs|;
      var m := RunLength(xs + ys);
      RunLengthOfRun(xs[..n], xs[n..] + ys);
      assert xs + ys == xs[..n] + (xs[n..] + ys);
      assert m == n;
      assert (xs + ys)[..n] == xs[..n];
      assert (xs + ys)[n..] == xs[n..] + ys;
      ParagraphsAppend(xs[n..], ys);
    }
  }

  /** A single run groups into itself, with or without a blank line after it. */
  lemma ParagraphsOfRun(run: seq<string>, rest: seq<string>)
    requires IsRun(run)
    requires rest == [] || (|rest| == 1 && IsBlank(rest[0]))
    ensures Paragraphs(run + rest) == [run]
  {
    RunLengthOfRun(run, rest);
    var lines := run + rest;
    assert lines[..|run|] == run;
    assert lines[|run|..] == rest;
    if rest != [] {
      assert rest[1..] == [];
    }
  }

  /**
   The grouping of a prefix that ends with an open run `t` (lines not yet
   closed by a blank): the runs of the closed part `c`, and `t` if non-empty,
   whether or not the blank line `b` has arrived to close it.
   */
  lemma EndRun(c: seq<string>, t: seq<string>, rest: seq<string>)
    requires EndsClosed(c)
    requires forall i :: 0 <= i < |t| ==> !IsBlank(t[i])
    requires rest == [] || (|rest| == 1 && IsBlank(rest[0]))
    ensures Paragraphs(c + t + rest) == Paragraphs(c) + (if t == [] then [] else [t])
  {
    assert c + t + rest == c + (t + rest);
    ParagraphsAppend(c, t + rest);
    if t == [] {
      assert t + rest == rest;
      if rest != [] {
        assert rest[1..] == [];
      }
    } else {
      ParagraphsOfRun(t, rest);
    }
  }

  /** The runs of `lines` are those of its closed prefix, then its open tail if any. */
  lemma ParagraphsOfOpenTail(lines: seq<string>)
    ensures var c := ClosedPrefix(lines);
            Paragraphs(lines) == Paragraphs(c) + (if |c| == |lines| then [] else [lines[|c|..]])
  {
    var c := ClosedPrefix(lines);
    ClosedPrefixSpec(lines);
    assert lines == c + lines[|c|..] + [];
    EndRun(c, lines[|c|..], []);
  }

  /** A trailing blank line closes the tail run and changes no grouping. */
  lemma ParagraphsIgnoreTrailingBlank(lines: seq<string>, b: string)
    requires IsBlank(b)
    ensures Paragraphs(lines + [b]) == Paragraphs(lines)
    ensures ClosedPrefix(lines + [b]) == lines + [b]
  {
    var c := ClosedPrefix(lines);
    ClosedPrefixSpec(lines);
    assert lines == c + lines[|c|..];
    assert lines + [b] == c + lines[|c|..] + [b];
    EndRun(c, lines[|c|..], [b]);
    ParagraphsOfOpenTail(lines);
  }

  /** Non-blank lines followed by a blank line, or by nothing, form the first run. */
  lemma ParagraphsOfRunThen(run: seq<string>, rest: seq<string>)
    requires IsRun(run)
    requires rest == [] || IsBlank(rest[0])
    ensures Paragraphs(run + rest) == [run] + Paragraphs(rest)
  {
    RunLengthOfRun(run, rest);
    var w := run + rest;
    assert w[..|run|] == run;
    assert w[|run|..] == rest;
  }

  /** Lines starting with a non-blank one split into the front run and lines starting at a blank one. */
  lemma FrontRun(ys: seq<string>)
    requires ys != [] && !IsBlank(ys[0])
    ensures IsRun(ys[..RunLength(ys)])
    ensures ys[RunLength(ys)..] == [] || IsBlank(ys[RunLength(ys)..][0])
    ensures Paragraphs(ys) == [ys[..RunLength(ys)]] + Paragraphs(ys[RunLength(ys)..])
  {
    var n := RunLength(ys);
    RunLengthSpec(ys);
    assert forall i :: 0 <= i < n ==> ys[..n][i] == ys[i];
    if n < |ys| {
      assert ys[n..][0] == ys[n];
    }
  }

  /**
   Regrouping a concatenation of four line sequences. Kept apart from
   `ParagraphsGlue`, where stating it inline is costly for the solver.
   */
  lemma Regroup(a: seq<string>, b: seq<string>, c: seq<string>, d: seq<string>)
    ensures (a + b) + (c + d) == a + (b + c + d)
  {
  }

  /** Two runs with no blank line between them group as one. */
  lemma GlueRuns(c: seq<string>, t: seq<string>, u: seq<string>, rest: seq<string>)
    requires EndsClosed(c) && IsRun(t) && IsRun(u)
    requires rest == [] || IsBlank(rest[0])
    ensures Paragraphs(c + (t + u + rest)) == Paragraphs(c) + [t + u] + Paragraphs(rest)
  {
    assert IsRun(t + u) by {
      forall i | 0 <= i < |t + u| ensures !IsBlank((t + u)[i]) {
        if i >= |t| {
          assert (t + u)[i] == u[i - |t|];
        }
      }
    }
    ParagraphsOfRunThen(t + u, rest);
    ParagraphsAppend(c, t + u + rest);
  }

  /**
   Runs are maximal: when `xs` ends and `ys` starts with a non-blank line,
   the last run of `xs` and the first run of `ys` merge into one.
   */
  lemma ParagraphsGlue(xs: seq<string>, ys: seq<string>)
    requires xs != [] && !IsBlank(xs[|xs| - 1])
    requires ys != [] && !IsBlank(ys[0])
    ensures var px, py := Paragraphs(xs), Paragraphs(ys);
            && px != [] && py != []
            && Paragraphs(xs + ys) == px[..|px| - 1] + [px[|px| - 1] + py[0]] + py[1..]
  {
    var c := ClosedPrefix(xs);
    ClosedPrefixSpec(xs);
    var t := xs[|c|..];
    assert IsRun(t) by {
      assert forall i :: 0 <= i < |t| ==> t[i] == xs[|c| + i];
    }
    assert xs == c + t;
    ParagraphsOfOpenTail(xs);
    FrontRun(ys);
    var n := RunLength(ys);
    var u, rest := ys[..n], ys[n..];
    assert ys == u + rest;
    GlueRuns(c, t, u, rest);
    Regroup(c, t, u, rest);
    var px, py := Paragraphs(xs), Paragraphs(ys);
    assert px == Paragraphs(c) + [t];
    assert px[..|px| - 1] == Paragraphs(c);
    assert py == [u] + Paragraphs(rest);
    assert py[1..] == Paragraphs(rest);
  }

  /**
   The runs a parser commits: all of them when the whole file was read, only
   those closed by a blank line when reading broke off, none when the file is
   missing.
   */
  function CommittedRuns(source: Source): seq<seq<string>> {
    match source
    case Missing => []
    case Complete(lines) => Paragraphs(lines)
    case Broken(lines) => Paragraphs(ClosedPrefix(lines))
  }

  /** Every committed run is a run. */
  lemma CommittedRunsAreRuns(source: Source)
    ensures forall j :: 0 <= j < |CommittedRuns(source)| ==> IsRun(CommittedRuns(source)[j])
  {
    match source
    case Missing =>
    case Complete(lines) => ParagraphsAreRuns(lines);
    case Broken(lines) => ParagraphsAreRuns(ClosedPrefix(lines));
  }

  /** A read failure costs at most the last run, and only when no blank line closed it. */
  lemma BrokenLosesOnlyOpenTail(lines: seq<string>)
    ensures CommittedRuns(Complete(lines)) == CommittedRuns(Broken(lines))
            + (if EndsClosed(lines) then [] else [lines[|ClosedPrefix(lines)|..]])
  {
    ParagraphsOfOpenTail(lines);
  }
}

/**
 What the responder's two line-by-line parsers know after each line, and how
 one more line (blank or not), or the end of the input, changes it. Each
 parser's state is tied to the declarative grouping of `Runs`: `start` is the
 index where the run still open begins, and everything before it has been
 closed by a blank line.
 */
module Scanning {
  import opened JavaText
  import opened Runs
  import opened Tables

  /** A reference that may be null. */
  datatype Option<T> = None | Some(value: T)

  /** `lines[start..i]` is the open run of the first `i` lines. */
  ghost predicate OpenRunAt(lines: seq<string>, i: nat, start: nat) {
    start <= i <= |lines| && lines[..start] == ClosedPrefix(lines[..i])
  }

  lemma OpenRunIsRun(lines: seq<string>, i: nat, start: nat)
    requires OpenRunAt(lines, i, start)
    ensures forall m :: 0 <= m < i - start ==> !IsBlank(lines[start..i][m])
    ensures EndsClosed(lines[..start])
  {
    ClosedPrefixSpec(lines[..i]);
    assert forall m :: start <= m < i ==> lines[..i][m] == lines[m];
  }

  /** A blank line closes the open run: the grouping gains it, if it is non-empty. */
  lemma CloseOnBlank(lines: seq<string>, i: nat, start: nat)
    requires OpenRunAt(lines, i, start) && i < |lines| && Trim(lines[i]) == []
    ensures OpenRunAt(lines, i + 1, i + 1)
    ensures Paragraphs(lines[..i + 1]) ==
            Paragraphs(lines[..start]) + (if start == i then [] else [lines[start..i]])
  {
    BlankIffTrimEmpty(lines[i]);
    OpenRunIsRun(lines, i, start);
    assert lines[..i + 1] == lines[..start] + lines[start..i] + [lines[i]];
    EndRun(lines[..start], lines[start..i], [lines[i]]);
  }

  /** A non-blank line extends the open run. */
  lemma ExtendOnLine(lines: seq<string>, i: nat, start: nat)
    requires OpenRunAt(lines, i, start) && i < |lines| && Trim(lines[i]) != []
    ensures OpenRunAt(lines, i + 1, start)
    ensures !IsBlank(lines[i])
  {
    BlankIffTrimEmpty(lines[i]);
    assert lines[..i + 1][..i] == lines[..i];
  }

  /** At the end of the input the open run is the last run, if it is non-empty. */
  lemma CloseAtEnd(lines: seq<string>, start: nat)
    requires OpenRunAt(lines, |lines|, start)
    ensures Paragraphs(lines) == Paragraphs(lines[..start]) + (if start == |lines| then [] else [lines[start..]])
    ensures ClosedPrefix(lines) == lines[..start]
  {
    OpenRunIsRun(lines, |lines|, start);
    assert lines[..|lines|] == lines;
    assert lines == lines[..start] + lines[start..] + [];
    EndRun(lines[..start], lines[start..], []);
  }

  // ---- the keyword file: keys line, then body lines ----

  /**
   The state of the keyword-file loop after `i` lines: `keys` is unset exactly
   when no run is open; otherwise it is the open run's first line split at
   commas, and the builder holds the rest of the run, each line trimmed,
   joined with single spaces.
   */
  ghost predicate EntryScan(lines: seq<string>, i: nat, start: nat, keys: Option<seq<string>>, builder: string) {
    && OpenRunAt(lines, i, start)
    && (keys.None? <==> start == i)
    && (keys.None? ==> builder == [])
    && (keys.Some? ==> keys.value == Split(lines[start]) && builder == JoinSpace(TrimAll(lines[start + 1..i])))
  }

  /** The table after committing `keys` and `builder` the way the loop does. */
  function CommitBuilt(table: map<string, string>, keys: Option<seq<string>>, builder: string): map<string, string> {
    if keys.Some? && |builder| > 0 then Overwrite(table, Keywords(keys.value), Trim(builder))
    else table
  }

  /** Committing the loop's state is committing the open run as an entry. */
  lemma CommitBuiltIsCommit(lines: seq<string>, i: nat, start: nat, keys: Option<seq<string>>, builder: string,
                            table: map<string, string>)
    requires EntryScan(lines, i, start, keys, builder) && start < i
    ensures CommitBuilt(table, keys, builder) == Commit(table, lines[start..i])
  {
    OpenRunIsRun(lines, i, start);
    var run := lines[start..i];
    var body := lines[start + 1..i];
    assert run[1..] == body;
    assert run[0] == lines[start];
    if body != [] {
      assert !IsBlank(body[0]) by {
        assert body[0] == run[1];
      }
      TrimOfNonBlank(body[0]);
    }
    JoinSpaceSnoc(TrimAll(body), []);
  }

  /** Committing one more run extends the table by that run. */
  lemma BuildTableSnoc(table: map<string, string>, runs: seq<seq<string>>, run: seq<string>)
    ensures BuildTable(table, runs + [run]) == Commit(BuildTable(table, runs), run)
  {
    assert (runs + [run])[..|runs|] == runs;
  }

  /** A blank line commits the open entry, then unsets the keys and empties the builder. */
  lemma EntryBlank(lines: seq<string>, i: nat, start: nat, keys: Option<seq<string>>, builder: string,
                   table: map<string, string>)
    requires EntryScan(lines, i, start, keys, builder) && i < |lines| && Trim(lines[i]) == []
    ensures EntryScan(lines, i + 1, i + 1, None, [])
    ensures BuildTable(table, Paragraphs(lines[..i + 1]))
            == CommitBuilt(BuildTable(table, Paragraphs(lines[..start])), keys, builder)
  {
    CloseOnBlank(lines, i, start);
    if start < i {
      BuildTableSnoc(table, Paragraphs(lines[..start]), lines[start..i]);
      CommitBuiltIsCommit(lines, i, start, keys, builder, BuildTable(table, Paragraphs(lines[..start])));
    } else {
      assert Paragraphs(lines[..start]) + [] == Paragraphs(lines[..start]);
    }
  }

  /** The first non-blank line of an entry becomes its keys. */
  lemma EntryKeysLine(lines: seq<string>, i: nat, start: nat, builder: string)
    requires EntryScan(lines, i, start, None, builder) && i < |lines| && Trim(lines[i]) != []
    ensures EntryScan(lines, i + 1, start, Some(Split(lines[i])), builder)
  {
    ExtendOnLine(lines, i, start);
  }

  /** A later non-blank line is trimmed and appended, after a space unless the builder is empty. */
  lemma EntryBodyLine(lines: seq<string>, i: nat, start: nat, keys: Option<seq<string>>, builder: string)
    requires EntryScan(lines, i, start, keys, builder) && keys.Some? && i < |lines| && Trim(lines[i]) != []
    ensures EntryScan(lines, i + 1, start, keys, (if |builder| > 0 then builder + " " else builder) + Trim(lines[i]))
  {
    ExtendOnLine(lines, i, start);
    OpenRunIsRun(lines, i, start);
    var body := lines[start + 1..i];
    var line := lines[i];
    assert lines[start + 1..i + 1] == body + [line];
    assert TrimAll(body + [line]) == TrimAll(body) + [Trim(line)];
    if body != [] {
      assert !IsBlank(body[0]) by {
        assert body[0] == lines[start..i][1];
      }
      TrimOfNonBlank(body[0]);
    }
    JoinSpaceSnoc(TrimAll(body), Trim(line));
  }

  /** At the end of the input, the table of all runs is the one after committing the state. */
  lemma EntryEnd(lines: seq<string>, start: nat, keys: Option<seq<string>>, builder: string,
                 table: map<string, string>)
    requires EntryScan(lines, |lines|, start, keys, builder)
    ensures BuildTable(table, Paragraphs(lines))
            == CommitBuilt(BuildTable(table, Paragraphs(lines[..start])), keys, builder)
    ensures ClosedPrefix(lines) == lines[..start]
  {
    CloseAtEnd(lines, start);
    if start < |lines| {
      assert lines[start..|lines|] == lines[start..];
      BuildTableSnoc(table, Paragraphs(lines[..start]), lines[start..]);
      CommitBuiltIsCommit(lines, |lines|, start, keys, builder, BuildTable(table, Paragraphs(lines[..start])));
    }
  }

  // ---- the default file: paragraphs ----

  /** The state of the default-file loop: the builder holds the open run joined with single spaces. */
  ghost predicate ParagraphScan(lines: seq<string>, i: nat, start: nat, builder: string) {
    OpenRunAt(lines, i, start) && builder == JoinSpace(lines[start..i])
  }

  /** The list after appending the builder's trimmed text, if the builder is non-empty. */
  function AppendBuilt(list: seq<string>, builder: string): seq<string> {
    if |builder| > 0 then list + [Trim(builder)] else list
  }

  /** Appending the loop's state is appending the open run's text. */
  lemma AppendBuiltIsText(lines: seq<string>, i: nat, start: nat, builder: string, prefix: seq<string>,
                          runs: seq<seq<string>>)
    requires ParagraphScan(lines, i, start, builder)
    ensures AppendBuilt(prefix + Texts(runs), builder)
            == prefix + Texts(runs + (if start == i then [] else [lines[start..i]]))
  {
    OpenRunIsRun(lines, i, start);
    var run := lines[start..i];
    if run != [] {
      assert run[0] != [] by {
        assert !IsBlank(run[0]);
      }
      JoinSpaceSnoc(run, []);
      TextsSnoc(runs, run);
      assert prefix + Texts(runs) + [ParagraphText(run)] == prefix + (Texts(runs) + [ParagraphText(run)]);
    } else {
      assert runs + [] == runs;
    }
  }

  /** A blank line appends the open paragraph and empties the builder. */
  lemma ParagraphBlank(lines: seq<string>, i: nat, start: nat, builder: string, prefix: seq<string>)
    requires ParagraphScan(lines, i, start, builder) && i < |lines| && Trim(lines[i]) == []
    ensures ParagraphScan(lines, i + 1, i + 1, [])
    ensures prefix + Texts(Paragraphs(lines[..i + 1])) == AppendBuilt(prefix + Texts(Paragraphs(lines[..start])), builder)
  {
    CloseOnBlank(lines, i, start);
    AppendBuiltIsText(lines, i, start, builder, prefix, Paragraphs(lines[..start]));
  }

  /** A non-blank line is appended untrimmed, after a space unless the builder is empty. */
  lemma ParagraphLine(lines: seq<string>, i: nat, start: nat, builder: string)
    requires ParagraphScan(lines, i, start, builder) && i < |lines| && Trim(lines[i]) != []
    ensures ParagraphScan(lines, i + 1, start, (if |builder| > 0 then builder + " " else builder) + lines[i])
  {
    ExtendOnLine(lines, i, start);
    OpenRunIsRun(lines, i, start);
    var run := lines[start..i];
    assert lines[start..i + 1] == run + [lines[i]];
    if run != [] {
      assert run[0] != [] by {
        assert !IsBlank(run[0]);
      }
    }
    JoinSpaceSnoc(run, lines[i]);
  }

  /** At the end of the input, the texts of all runs are the list after appending the state. */
  lemma ParagraphEnd(lines: seq<string>, start: nat, builder: string, prefix: seq<string>)
    requires ParagraphScan(lines, |lines|, start, builder)
    ensures prefix + Texts(Paragraphs(lines)) == AppendBuilt(prefix + Texts(Paragraphs(lines[..start])), builder)
    ensures ClosedPrefix(lines) == lines[..start]
  {
    CloseAtEnd(lines, start);
    AppendBuiltIsText(lines, |lines|, start, builder, prefix, Paragraphs(lines[..start]));
    assert lines[start..|lines|] == lines[start..];
  }
}

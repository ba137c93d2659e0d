/**
 What the responder's two parsers are meant to build, stated over the runs of
 non-blank lines of each file: the keyword table (one entry per run: a keys
 line, then body lines) and the list of default responses (one per run).
 */
module Tables {
  import opened JavaText
  import opened Runs

  /** The reply used when the default file yields no paragraph. */
  const FallbackResponse: string := "Could you elaborate on that?"

  /** The keywords a keys array stands for: each of its pieces, trimmed. */
  function Keywords(keys: seq<string>): set<string> {
    set key | key in keys :: Trim(key)
  }

  /** One more key adds its trimmed form to the keywords. */
  lemma KeywordsSnoc(keys: seq<string>, key: string)
    ensures Keywords(keys + [key]) == Keywords(keys) + {Trim(key)}
  {
    forall k | k in Keywords(keys + [key]) ensures k in Keywords(keys) + {Trim(key)} {
      var x :| x in keys + [key] && k == Trim(x);
      if x != key {
        assert x in keys;
      }
    }
  }

  /** `table` with every keyword of `ks` mapped to `v`, whatever it held before. */
  function Overwrite(table: map<string, string>, ks: set<string>, v: string): map<string, string> {
    table + map x | x in ks :: v
  }

  /** Writing one more keyword is one more `put`. */
  lemma OverwriteSnoc(table: map<string, string>, ks: set<string>, k: string, v: string)
    ensures Overwrite(table, ks + {k}, v) == Overwrite(table, ks, v)[k := v]
  {
  }

  /**
   The response text of an entry's body: each body line trimmed, the lines
   joined with single spaces, the whole trimmed again.
   */
  function ResponseText(body: seq<string>): string {
    Trim(JoinSpace(TrimAll(body)))
  }

  /** For real body lines the final trim is redundant and the text is never empty. */
  lemma ResponseTextOfBody(body: seq<string>)
    requires IsRun(body)
    ensures ResponseText(body) == JoinSpace(TrimAll(body))
    ensures ResponseText(body) != []
  {
    var parts := TrimAll(body);
    forall i | 0 <= i < |parts| ensures parts[i] != [] && Trim(parts[i]) == parts[i] {
      TrimOfNonBlank(body[i]);
      TrimIdempotent(body[i]);
    }
    JoinSpaceOfTrimmed(parts);
  }

  /** The keywords an entry writes: none when it has no body line. */
  function Written(entry: seq<string>): set<string> {
    if |entry| >= 2 then Keywords(Split(entry[0])) else {}
  }

  /** The table after committing one entry (its first line is the keys line). */
  function Commit(table: map<string, string>, entry: seq<string>): map<string, string> {
    if |entry| >= 2 then Overwrite(table, Keywords(Split(entry[0])), ResponseText(entry[1..]))
    else table
  }

  /**
   Committing an entry maps every trimmed key of its keys line to the entry's
   response text, overwriting what was there, and leaves every other keyword
   as it was. An entry without a body line changes nothing.
   */
  lemma CommitSpec(table: map<string, string>, entry: seq<string>)
    ensures Commit(table, entry).Keys == table.Keys + Written(entry)
    ensures |entry| >= 2 ==> forall key :: key in Split(entry[0]) ==>
              Commit(table, entry)[Trim(key)] == ResponseText(entry[1..])
    ensures forall k :: k in table && k !in Written(entry) ==> Commit(table, entry)[k] == table[k]
    ensures |entry| < 2 ==> Commit(table, entry) == table
  {
  }

  /** The table after committing the entries in order, starting from `table`. */
  function BuildTable(table: map<string, string>, entries: seq<seq<string>>): map<string, string>
    decreases |entries|
  {
    if entries == [] then table
    else Commit(BuildTable(table, entries[..|entries| - 1]), entries[|entries| - 1])
  }

  /** Last write wins: a keyword maps to the text of the last entry that writes it. */
  lemma {:induction false} LastWriteWins(table: map<string, string>, entries: seq<seq<string>>, j: nat, k: string)
    requires j < |entries| && k in Written(entries[j])
    requires forall j' :: j < j' < |entries| ==> k !in Written(entries[j'])
    ensures k in BuildTable(table, entries)
    ensures BuildTable(table, entries)[k] == ResponseText(entries[j][1..])
    decreases |entries|
  {
    var init := entries[..|entries| - 1];
    CommitSpec(BuildTable(table, init), entries[|entries| - 1]);
    if j < |entries| - 1 {
      LastWriteWins(table, init, j, k);
    } else {
      var e := entries[j];
      var key :| key in Split(e[0]) && k == Trim(key);
    }
  }

  /** The keywords of the table are those it started with and those some entry writes. */
  lemma {:induction false} BuildTableKeys(table: map<string, string>, entries: seq<seq<string>>, k: string)
    ensures k in BuildTable(table, entries) <==>
              k in table || exists j :: 0 <= j < |entries| && k in Written(entries[j])
    decreases |entries|
  {
    if entries != [] {
      var init := entries[..|entries| - 1];
      var last := entries[|entries| - 1];
      BuildTableKeys(table, init, k);
      CommitSpec(BuildTable(table, init), last);
      if exists j :: 0 <= j < |entries| && k in Written(entries[j]) {
        var j :| 0 <= j < |entries| && k in Written(entries[j]);
        if j < |init| {
          assert init[j] == entries[j];
        }
      }
      if exists j :: 0 <= j < |init| && k in Written(init[j]) {
        var j :| 0 <= j < |init| && k in Written(init[j]);
        assert entries[j] == init[j];
      }
    }
  }

  /** A keyword that no entry writes keeps its value, or stays absent. */
  lemma {:induction false} Untouched(table: map<string, string>, entries: seq<seq<string>>, k: string)
    requires forall j :: 0 <= j < |entries| ==> k !in Written(entries[j])
    ensures k in BuildTable(table, entries) <==> k in table
    ensures k in table ==> BuildTable(table, entries)[k] == table[k]
    decreases |entries|
  {
    if entries != [] {
      var init := entries[..|entries| - 1];
      Untouched(table, init, k);
      CommitSpec(BuildTable(table, init), entries[|entries| - 1]);
    }
  }

  /** Committing non-blank runs never stores an empty response. */
  lemma {:induction false} BuildTableValuesNonEmpty(table: map<string, string>, entries: seq<seq<string>>)
    requires forall k :: k in table ==> table[k] != []
    requires forall j :: 0 <= j < |entries| ==> IsRun(entries[j])
    ensures forall k :: k in BuildTable(table, entries) ==> BuildTable(table, entries)[k] != []
    decreases |entries|
  {
    if entries != [] {
      var init := entries[..|entries| - 1];
      var e := entries[|entries| - 1];
      BuildTableValuesNonEmpty(table, init);
      var before := BuildTable(table, init);
      if |e| >= 2 {
        assert IsRun(e[1..]) by {
          assert IsRun(e);
        }
        ResponseTextOfBody(e[1..]);
        CommitSpec(before, e);
        forall k | k in BuildTable(table, entries) ensures BuildTable(table, entries)[k] != [] {
          if k !in Written(e) {
            assert k in before;
          }
        }
      }
    }
  }

  /** The keyword table the keyword file yields. */
  function ResponseTable(source: Source): map<string, string> {
    BuildTable(map[], CommittedRuns(source))
  }

  /**
   A final entry with no blank line after it is committed exactly as if one
   followed; a read failure right after that blank line loses nothing.
   */
  lemma FinalEntryCommitted(lines: seq<string>, b: string)
    requires IsBlank(b)
    ensures ResponseTable(Complete(lines + [b])) == ResponseTable(Complete(lines))
    ensures ResponseTable(Broken(lines + [b])) == ResponseTable(Complete(lines))
  {
    ParagraphsIgnoreTrailingBlank(lines, b);
  }

  /** A missing file gives an empty table. */
  lemma MissingTableIsEmpty()
    ensures ResponseTable(Missing) == map[]
  {
  }

  /** A default paragraph: its lines, untrimmed, joined with single spaces, then trimmed. */
  function ParagraphText(run: seq<string>): string {
    Trim(JoinSpace(run))
  }

  /** A paragraph of non-blank lines never gives an empty response. */
  lemma ParagraphTextNonEmpty(run: seq<string>)
    requires IsRun(run)
    ensures ParagraphText(run) != []
  {
    JoinWithEnds(run, " ");
    var s := JoinSpace(run);
    TrimSpec(s);
    var i :| 0 <= i < |run[0]| && !IsTrimmable(run[0][i]);
    assert s[i] == s[..|run[0]|][i] == run[0][i];
  }

  /** One text per run, in the runs' order. */
  function Texts(runs: seq<seq<string>>): (ts: seq<string>)
    ensures |ts| == |runs|
  {
    seq(|runs|, j requires 0 <= j < |runs| => ParagraphText(runs[j]))
  }

  /** Closing one more run appends its text. */
  lemma TextsSnoc(runs: seq<seq<string>>, run: seq<string>)
    ensures Texts(runs + [run]) == Texts(runs) + [ParagraphText(run)]
  {
    var a, b := Texts(runs + [run]), Texts(runs) + [ParagraphText(run)];
    forall j | 0 <= j < |a| ensures a[j] == b[j] {
      if j < |runs| {
        assert (runs + [run])[j] == runs[j];
      }
    }
  }

  /** The list with the fallback added when it is empty. */
  function WithFallback(list: seq<string>): (r: seq<string>)
    ensures r != []
  {
    if list == [] then [FallbackResponse] else list
  }

  /** The default responses the default file yields. */
  function DefaultList(source: Source): seq<string> {
    WithFallback(Texts(CommittedRuns(source)))
  }

  /**
   The default list is never empty: it holds one non-empty text per committed
   paragraph, in file order, or exactly the fallback when there is none.
   */
  lemma DefaultListSpec(source: Source)
    ensures var runs := CommittedRuns(source);
            && (runs == [] ==> DefaultList(source) == [FallbackResponse])
            && (runs != [] ==>
                  && |DefaultList(source)| == |runs|
                  && forall j :: 0 <= j < |runs| ==> DefaultList(source)[j] == ParagraphText(runs[j]))
    ensures forall j :: 0 <= j < |DefaultList(source)| ==> DefaultList(source)[j] != []
  {
    var runs := CommittedRuns(source);
    CommittedRunsAreRuns(source);
    forall j | 0 <= j < |runs| ensures ParagraphText(runs[j]) != [] {
      ParagraphTextNonEmpty(runs[j]);
    }
  }

  /** A missing default file leaves exactly the fallback. */
  lemma MissingDefaultsFallBack()
    ensures DefaultList(Missing) == [FallbackResponse]
  {
  }

  /** A last paragraph with no blank line after it is kept as if one followed. */
  lemma FinalParagraphKept(lines: seq<string>, b: string)
    requires IsBlank(b)
    ensures DefaultList(Complete(lines + [b])) == DefaultList(Complete(lines))
    ensures DefaultList(Broken(lines + [b])) == DefaultList(Complete(lines))
  {
    ParagraphsIgnoreTrailingBlank(lines, b);
  }
}

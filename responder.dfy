/**
 The responder of the tech-support system: a keyword table and a list of
 default replies, both filled once from the two text files when the responder
 is built, and a query that answers a set of input words.
 */
module TechSupport {
  import opened JavaText
  import opened Runs
  import opened Tables
  import opened Scanning

  class Responder {
    /** Maps a keyword to its response. */
    var responseMap: map<string, string>
    /** The replies used when no input word is a keyword. */
    var defaultResponses: seq<string>

    /**
     What construction establishes: there is a default reply to draw, and
     no reply, mapped or default, is empty.
     */
    ghost predicate Valid()
      reads this
    {
      && |defaultResponses| > 0
      && (forall i :: 0 <= i < |defaultResponses| ==> defaultResponses[i] != [])
      && (forall k :: k in responseMap ==> responseMap[k] != [])
    }

    /**
     Builds the responder from what reading the keyword file and the default
     file produced: first the table, then the default list.
     */
    constructor (systemResponses: Source, defaults: Source)
      ensures Valid()
      ensures responseMap == ResponseTable(systemResponses)
      ensures defaultResponses == DefaultList(defaults)
    {
      responseMap := map[];
      defaultResponses := [];
      new;
      FillResponseMap(systemResponses);
      FillDefaultResponses(defaults);
      CommittedRunsAreRuns(systemResponses);
      BuildTableValuesNonEmpty(map[], CommittedRuns(systemResponses));
      DefaultListSpec(defaults);
    }

    /**
     Answers a set of input words: the response of some input word that is
     a keyword, if there is one (the set is searched in no particular order),
     and otherwise the default reply at the drawn index.
     */
    method GenerateResponse(words: set<string>, draw: nat) returns (response: string)
      requires Valid()
      requires draw < |defaultResponses|
      ensures (exists w :: w in words && w in responseMap) ==>
                exists w :: w in words && w in responseMap && response == responseMap[w]
      ensures (forall w :: w in words ==> w !in responseMap) ==> response == defaultResponses[draw]
      ensures response != []
    {
      var remaining := words;
      while remaining != {}
        invariant remaining <= words
        invariant forall w :: w in words && w !in remaining ==> w !in responseMap
        decreases remaining
      {
        var word :| word in remaining;
        if word in responseMap {
          return responseMap[word];
        }
        remaining := remaining - {word};
      }
      response := PickDefaultResponse(draw);
    }

    /** The default reply at `index`, an index the random source drew in `[0, |defaultResponses|)`. */
    method PickDefaultResponse(index: nat) returns (response: string)
      requires Valid()
      requires index < |defaultResponses|
      ensures response == defaultResponses[index]
      ensures response in defaultResponses && response != []
    {
      response := defaultResponses[index];
    }

    /** Maps every key of `keys`, trimmed, to `response`, one `put` at a time. */
    method PutKeys(keys: seq<string>, response: string)
      modifies this
      ensures responseMap == Overwrite(old(responseMap), Keywords(keys), response)
      ensures defaultResponses == old(defaultResponses)
    {
      var j := 0;
      while j < |keys|
        invariant 0 <= j <= |keys|
        invariant responseMap == Overwrite(old(responseMap), Keywords(keys[..j]), response)
        invariant defaultResponses == old(defaultResponses)
      {
        assert keys[..j + 1] == keys[..j] + [keys[j]];
        KeywordsSnoc(keys[..j], keys[j]);
        OverwriteSnoc(old(responseMap), Keywords(keys[..j]), Trim(keys[j]), response);
        responseMap := responseMap[Trim(keys[j]) := response];
        j := j + 1;
      }
      assert keys[..j] == keys;
    }

    /**
     Commits the entry being read: when it has keys and a non-empty body, maps
     each key, trimmed, to the body trimmed; otherwise changes nothing.
     */
    method PutEntry(keys: Option<seq<string>>, responseBuilder: string)
      modifies this
      ensures responseMap == CommitBuilt(old(responseMap), keys, responseBuilder)
      ensures defaultResponses == old(defaultResponses)
    {
      if keys.Some? && |responseBuilder| > 0 {
        var response := Trim(responseBuilder);
        PutKeys(keys.value, response);
      }
    }

    /**
     Reads the keyword file line by line. A blank line ends the current entry,
     committing it when it has keys and a body; the first line of an entry is
     its keys line; every further line is trimmed and appended to the body
     with a single space before it. When the whole file was read, the entry
     still open at the end is committed too.
     */
    method FillResponseMap(source: Source)
      modifies this
      ensures responseMap == BuildTable(old(responseMap), CommittedRuns(source))
      ensures defaultResponses == old(defaultResponses)
    {
      var lines := source.Lines();
      var keys: Option<seq<string>> := None;
      var responseBuilder: string := [];
      var i := 0;
      ghost var start := 0;
      while i < |lines|
        invariant i <= |lines|
        invariant EntryScan(lines, i, start, keys, responseBuilder)
        invariant responseMap == BuildTable(old(responseMap), Paragraphs(lines[..start]))
        invariant defaultResponses == old(defaultResponses)
      {
        var line := lines[i];
        if Trim(line) == [] {
          EntryBlank(lines, i, start, keys, responseBuilder, old(responseMap));
          PutEntry(keys, responseBuilder);
          keys := None;
          responseBuilder := [];
          start := i + 1;
        } else if keys.None? {
          EntryKeysLine(lines, i, start, responseBuilder);
          keys := Some(Split(line));
        } else {
          EntryBodyLine(lines, i, start, keys, responseBuilder);
          if |responseBuilder| > 0 {
            responseBuilder := responseBuilder + " ";
          }
          responseBuilder := responseBuilder + Trim(line);
        }
        i := i + 1;
      }
      EntryEnd(lines, start, keys, responseBuilder, old(responseMap));
      if source.Complete? {
        PutEntry(keys, responseBuilder);
      }
    }

    /**
     Reads the default file line by line. Every maximal run of non-blank lines
     is joined, untrimmed, with single spaces, trimmed, and appended to the
     list; the run still open at the end is appended only when the whole file
     was read. Then, if the list is empty, the fallback reply is added.
     */
    method FillDefaultResponses(source: Source)
      modifies this
      ensures defaultResponses == WithFallback(old(defaultResponses) + Texts(CommittedRuns(source)))
      ensures responseMap == old(responseMap)
    {
      var lines := source.Lines();
      var entryBuilder: string := [];
      var i := 0;
      ghost var start := 0;
      while i < |lines|
        invariant i <= |lines|
        invariant ParagraphScan(lines, i, start, entryBuilder)
        invariant defaultResponses == old(defaultResponses) + Texts(Paragraphs(lines[..start]))
        invariant responseMap == old(responseMap)
      {
        var response := lines[i];
        if Trim(response) == [] {
          ParagraphBlank(lines, i, start, entryBuilder, old(defaultResponses));
          if |entryBuilder| > 0 {
            defaultResponses := defaultResponses + [Trim(entryBuilder)];
            entryBuilder := [];
          }
          start := i + 1;
        } else {
          ParagraphLine(lines, i, start, entryBuilder);
          if |entryBuilder| > 0 {
            entryBuilder := entryBuilder + " ";
          }
          entryBuilder := entryBuilder + response;
        }
        i := i + 1;
      }
      ParagraphEnd(lines, start, entryBuilder, old(defaultResponses));
      if source.Complete? && |entryBuilder| > 0 {
        defaultResponses := defaultResponses + [Trim(entryBuilder)];
      }
      if |defaultResponses| == 0 {
        defaultResponses := defaultResponses + [FallbackResponse];
      }
    }
  }
}

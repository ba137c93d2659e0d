/**
 The two pieces of java.lang.String that the responder's parsers rely on:
 `trim()`, which strips every leading and trailing character whose code is at
 most U+0020, and `split(",")`, which cuts a line at every comma and then drops
 the empty pieces at its end. `JoinWith` is the inverse of cutting, and also
 what a StringBuilder that appends pieces with a separator between them builds.
 */
module JavaText {

  /** A character that `String.trim()` removes from either end. */
  predicate IsTrimmable(c: char) {
    c <= ' '
  }

  /** `s` with its leading trimmable characters removed. */
  function TrimLeft(s: string): (r: string)
    ensures |r| <= |s|
    decreases |s|
  {
    if s != [] && IsTrimmable(s[0]) then TrimLeft(s[1..]) else s
  }

  /** `s` with its trailing trimmable characters removed. */
  function TrimRight(s: string): (r: string)
    ensures |r| <= |s|
    decreases |s|
  {
    if s != [] && IsTrimmable(s[|s| - 1]) then TrimRight(s[..|s| - 1]) else s
  }

  /** `String.trim()`. */
  function Trim(s: string): (r: string)
    ensures |r| <= |s|
  {
    TrimRight(TrimLeft(s))
  }

  /** How many characters `trim()` cuts off the front of `s`. */
  function Leading(s: string): (n: nat)
    ensures n <= |s|
  {
    |s| - |TrimLeft(s)|
  }

  /** `TrimLeft` gives the suffix after the leading trimmable characters. */
  lemma {:induction false} TrimLeftSpec(s: string)
    ensures TrimLeft(s) == s[|s| - |TrimLeft(s)|..]
    ensures forall i :: 0 <= i < |s| - |TrimLeft(s)| ==> IsTrimmable(s[i])
    ensures TrimLeft(s) != [] ==> !IsTrimmable(TrimLeft(s)[0])
    decreases |s|
  {
    if s != [] && IsTrimmable(s[0]) {
      TrimLeftSpec(s[1..]);
    }
  }

  /** `TrimRight` gives the prefix before the trailing trimmable characters. */
  lemma {:induction false} TrimRightSpec(s: string)
    ensures TrimRight(s) == s[..|TrimRight(s)|]
    ensures forall i :: |TrimRight(s)| <= i < |s| ==> IsTrimmable(s[i])
    ensures TrimRight(s) != [] ==> !IsTrimmable(TrimRight(s)[|TrimRight(s)| - 1])
    decreases |s|
  {
    if s != [] && IsTrimmable(s[|s| - 1]) {
      TrimRightSpec(s[..|s| - 1]);
    }
  }

  /**
   What `String.trim()` returns: the substring of `s` that starts after its
   leading trimmable characters and ends before its trailing ones; it neither
   starts nor ends with a trimmable character, and it is empty exactly when
   every character of `s` is trimmable.
   */
  lemma TrimSpec(s: string)
    ensures Leading(s) + |Trim(s)| <= |s|
    ensures Trim(s) == s[Leading(s)..Leading(s) + |Trim(s)|]
    ensures forall i :: 0 <= i < Leading(s) ==> IsTrimmable(s[i])
    ensures forall i :: Leading(s) + |Trim(s)| <= i < |s| ==> IsTrimmable(s[i])
    ensures Trim(s) != [] ==> !IsTrimmable(Trim(s)[0]) && !IsTrimmable(Trim(s)[|Trim(s)| - 1])
    ensures Trim(s) == [] <==> forall i :: 0 <= i < |s| ==> IsTrimmable(s[i])
  {
    var left := TrimLeft(s);
    TrimLeftSpec(s);
    TrimRightSpec(left);
    var a := Leading(s);
    forall i | a + |Trim(s)| <= i < |s| ensures IsTrimmable(s[i]) {
      assert s[i] == left[i - a];
    }
    if Trim(s) != [] {
      assert Trim(s)[0] == left[0];
    }
  }

  /**
   A line holding nothing but trimmable characters: what `line.trim().isEmpty()`
   tests (see `BlankIffTrimEmpty`).
   */
  predicate IsBlank(line: string) {
    forall i :: 0 <= i < |line| ==> IsTrimmable(line[i])
  }

  /** `line.trim().isEmpty()` holds exactly of the blank lines. */
  lemma BlankIffTrimEmpty(line: string)
    ensures IsBlank(line) <==> Trim(line) == []
  {
    TrimSpec(line);
  }

  /** A string that neither starts nor ends with a trimmable character is its own trim. */
  lemma TrimOfTrimmed(s: string)
    requires s != [] ==> !IsTrimmable(s[0]) && !IsTrimmable(s[|s| - 1])
    ensures Trim(s) == s
  {
    assert TrimLeft(s) == s;
    assert TrimRight(s) == s;
  }

  /** Trimming twice is trimming once. */
  lemma TrimIdempotent(s: string)
    ensures Trim(Trim(s)) == Trim(s)
  {
    TrimSpec(s);
    TrimOfTrimmed(Trim(s));
  }

  /** The trim of a non-blank line is non-empty, keeps non-trimmable ends, and is its own trim. */
  lemma TrimOfNonBlank(line: string)
    requires !IsBlank(line)
    ensures Trim(line) != []
    ensures !IsTrimmable(Trim(line)[0]) && !IsTrimmable(Trim(line)[|Trim(line)| - 1])
    ensures Trim(Trim(line)) == Trim(line)
  {
    TrimSpec(line);
    TrimIdempotent(line);
  }

  /** Every element of `lines`, trimmed. */
  function TrimAll(lines: seq<string>): seq<string> {
    seq(|lines|, i requires 0 <= i < |lines| => Trim(lines[i]))
  }

  /** The pieces joined with `sep` between each neighbouring pair. */
  function JoinWith(parts: seq<string>, sep: string): string
    decreases |parts|
  {
    if |parts| == 0 then []
    else if |parts| == 1 then parts[0]
    else parts[0] + sep + JoinWith(parts[1..], sep)
  }

  /** Appending a piece appends the separator and the piece (what `append` does to a builder). */
  lemma {:induction false} JoinWithSnoc(parts: seq<string>, x: string, sep: string)
    requires parts != []
    ensures JoinWith(parts + [x], sep) == JoinWith(parts, sep) + sep + x
    decreases |parts|
  {
    if |parts| == 1 {
      assert parts + [x] == [parts[0], x];
      assert (parts + [x])[1..] == [x];
    } else {
      assert (parts + [x])[1..] == parts[1..] + [x];
      JoinWithSnoc(parts[1..], x, sep);
    }
  }

  /** The join starts with the first piece and ends with the last. */
  lemma {:induction false} JoinWithEnds(parts: seq<string>, sep: string)
    requires parts != []
    ensures |JoinWith(parts, sep)| >= |parts[0]| && |JoinWith(parts, sep)| >= |parts[|parts| - 1]|
    ensures JoinWith(parts, sep)[..|parts[0]|] == parts[0]
    ensures JoinWith(parts, sep)[|JoinWith(parts, sep)| - |parts[|parts| - 1]|..] == parts[|parts| - 1]
    decreases |parts|
  {
    if |parts| > 1 {
      JoinWithEnds(parts[1..], sep);
      var rest := JoinWith(parts[1..], sep);
      assert JoinWith(parts, sep) == parts[0] + sep + rest;
      assert (parts[0] + sep + rest)[..|parts[0]|] == parts[0];
      var last := parts[|parts| - 1];
      assert parts[1..][|parts[1..]| - 1] == last;
      assert rest[|rest| - |last|..] == last;
      assert (parts[0] + sep + rest)[|parts[0] + sep + rest| - |last|..] == rest[|rest| - |last|..];
    }
  }

  /** What a StringBuilder holds after appending `parts` with a single space between them. */
  function JoinSpace(parts: seq<string>): string {
    JoinWith(parts, " ")
  }

  /**
   The builder step of both parsers: when the first piece is non-empty, the
   join is empty exactly when there are no pieces, and appending one more
   piece appends a space first unless the join so far is empty.
   */
  lemma JoinSpaceSnoc(parts: seq<string>, x: string)
    requires parts == [] || parts[0] != []
    ensures |JoinSpace(parts)| > 0 <==> parts != []
    ensures JoinSpace(parts + [x]) == (if |JoinSpace(parts)| > 0 then JoinSpace(parts) + " " else JoinSpace(parts)) + x
  {
    if parts == [] {
      assert parts + [x] == [x];
    } else {
      JoinWithEnds(parts, " ");
      JoinWithSnoc(parts, x, " ");
    }
  }

  /**
   Joining pieces that are each non-empty and already trimmed gives a string
   that is non-empty and already trimmed, so a final `trim()` changes nothing.
   */
  lemma JoinSpaceOfTrimmed(parts: seq<string>)
    requires parts != []
    requires forall i :: 0 <= i < |parts| ==> parts[i] != [] && Trim(parts[i]) == parts[i]
    ensures JoinSpace(parts) != []
    ensures Trim(JoinSpace(parts)) == JoinSpace(parts)
  {
    JoinWithEnds(parts, " ");
    var s := JoinSpace(parts);
    var first, last := parts[0], parts[|parts| - 1];
    TrimSpec(first);
    TrimSpec(last);
    assert s[0] == first[0];
    assert s[|s| - |last|..] == last;
    assert s[|s| - 1] == last[|last| - 1];
    TrimOfTrimmed(s);
  }

  /** Java `split` with a one-character delimiter: cut at every comma, keeping empty pieces. */
  function Pieces(s: string): (r: seq<string>)
    ensures |r| >= 1
    decreases |s|
  {
    if s == [] then [[]]
    else
      var rest := Pieces(s[1..]);
      if s[0] == ',' then [[]] + rest
      else [[s[0]] + rest[0]] + rest[1..]
  }

  /** No piece holds a comma. */
  lemma {:induction false} PiecesHaveNoComma(s: string)
    ensures forall j :: 0 <= j < |Pieces(s)| ==> ',' !in Pieces(s)[j]
    decreases |s|
  {
    if s != [] {
      PiecesHaveNoComma(s[1..]);
    }
  }

  /** Joining the pieces with commas gives the line back. */
  lemma {:induction false} PiecesJoin(s: string)
    ensures JoinWith(Pieces(s), ",") == s
    decreases |s|
  {
    if s != [] {
      PiecesJoin(s[1..]);
      var rest := Pieces(s[1..]);
      if s[0] == ',' {
        assert ([[]] + rest)[1..] == rest;
      } else {
        var r := [[s[0]] + rest[0]] + rest[1..];
        if |rest| == 1 {
          assert r == [[s[0]] + rest[0]];
        } else {
          assert r[1..] == rest[1..];
          assert JoinWith(rest, ",") == rest[0] + "," + JoinWith(rest[1..], ",");
        }
        assert s == [s[0]] + s[1..];
      }
    }
  }

  /** `ps` with its trailing empty pieces removed (Java's split with limit 0). */
  function DropTrailingEmpty(ps: seq<string>): (r: seq<string>)
    ensures |r| <= |ps|
    decreases |ps|
  {
    if ps != [] && ps[|ps| - 1] == [] then DropTrailingEmpty(ps[..|ps| - 1]) else ps
  }

  /** What is dropped is empty, and what is kept is a prefix ending in a non-empty piece. */
  lemma {:induction false} DropTrailingEmptySpec(ps: seq<string>)
    ensures DropTrailingEmpty(ps) == ps[..|DropTrailingEmpty(ps)|]
    ensures forall j :: |DropTrailingEmpty(ps)| <= j < |ps| ==> ps[j] == []
    ensures DropTrailingEmpty(ps) == [] || DropTrailingEmpty(ps)[|DropTrailingEmpty(ps)| - 1] != []
    decreases |ps|
  {
    if ps != [] && ps[|ps| - 1] == [] {
      DropTrailingEmptySpec(ps[..|ps| - 1]);
    }
  }

  /** `s.split(",")`. */
  function Split(s: string): seq<string> {
    if ',' !in s then [s] else DropTrailingEmpty(Pieces(s))
  }

  /**
   What `s.split(",")` returns: `[s]` when `s` has no comma; otherwise the
   comma-separated pieces up to and including the last non-empty one, so that
   interior and leading empty pieces stay and only trailing ones go.
   */
  lemma SplitSpec(s: string)
    ensures ',' !in s ==> Split(s) == [s]
    ensures ',' in s ==> |Split(s)| <= |Pieces(s)| && Split(s) == Pieces(s)[..|Split(s)|]
    ensures ',' in s ==> forall j :: |Split(s)| <= j < |Pieces(s)| ==> Pieces(s)[j] == []
    ensures ',' in s ==> Split(s) == [] || Split(s)[|Split(s)| - 1] != []
  {
    DropTrailingEmptySpec(Pieces(s));
  }

  /** One step of `Pieces`: a comma opens a new piece, any other character joins the first piece. */
  lemma PiecesStep(c: char, s: string)
    ensures Pieces([c] + s) == if c == ',' then [[]] + Pieces(s) else [[c] + Pieces(s)[0]] + Pieces(s)[1..]
  {
    assert ([c] + s)[1..] == s;
  }

  /** The pieces of `",b,"`: an empty one, `"b"`, and an empty one. */
  lemma PiecesOfCommaBComma()
    ensures Pieces(",b,") == [[], "b", []]
  {
    assert [','] + "" == "," && ['b'] + "," == "b," && [','] + "b," == ",b,";
    PiecesStep(',', "");
    var p1 := Pieces(",");
    assert p1 == [[], []] && p1[0] == [] && p1[1..] == [[]];
    PiecesStep('b', ",");
    assert ['b'] + p1[0] == "b" && Pieces("b,") == ["b", []];
    PiecesStep(',', "b,");
  }

  /** `"a,b,".split(",")` is `["a", "b"]`: the trailing empty piece is dropped. */
  lemma SplitDropsTrailing()
    ensures Split("a,b,") == ["a", "b"]
  {
    assert ['a'] + ",b," == "a,b,";
    PiecesOfCommaBComma();
    var p3 := Pieces(",b,");
    assert p3[0] == [] && p3[1..] == ["b", []];
    PiecesStep('a', ",b,");
    assert ['a'] + p3[0] == "a" && Pieces("a,b,") == ["a", "b", []];
    assert DropTrailingEmpty(["a", "b", []]) == DropTrailingEmpty(["a", "b"]);
  }

  /** `",".split(",")` is empty: both pieces are empty and trailing. */
  lemma SplitOfLoneComma()
    ensures Split(",") == []
  {
    PiecesStep(',', "");
    assert [','] + "" == ",";
    assert DropTrailingEmpty([[], []]) == DropTrailingEmpty([[]]);
  }

  /** The pieces of `",,b"`: two empty ones, then `"b"`. */
  lemma PiecesOfCommaCommaB()
    ensures Pieces(",,b") == [[], [], "b"]
  {
    assert ['b'] + "" == "b" && [','] + "b" == ",b" && [','] + ",b" == ",,b";
    PiecesStep('b', "");
    var p0 := Pieces("");
    assert p0 == [[]] && p0[0] == [] && p0[1..] == [];
    assert ['b'] + p0[0] == "b" && Pieces("b") == ["b"];
    PiecesStep(',', "b");
    PiecesStep(',', ",b");
  }

  /** `"a,,b".split(",")` keeps the empty piece between the commas. */
  lemma SplitKeepsInterior()
    ensures Split("a,,b") == ["a", [], "b"]
  {
    assert ['a'] + ",,b" == "a,,b";
    PiecesOfCommaCommaB();
    var p3 := Pieces(",,b");
    assert p3[0] == [] && p3[1..] == [[], "b"];
    PiecesStep('a', ",,b");
    assert ['a'] + p3[0] == "a" && Pieces("a,,b") == ["a", [], "b"];
  }
}

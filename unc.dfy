/** The `UNC` generator: its settings, `createOptions` for one input line
    (the usernames it writes, one batch per locked write) and the line
    filter of `run`. */
module Unc {
  import opened PyStr
  import opened Results
  import opened Substitutions
  import opened Options

  /** The settings of a `UNC` object. None of them changes after
      construction; the output file and the lock are not modelled. */
  datatype Unc = Unc(numberadd: int, casesense: bool, specialchars: bool, subs: Table)

  /** `UNC.__init__`: the substitution file is parsed whatever the
      special-character setting, and one bad line aborts construction. */
  method Init(subsLines: seq<string>, numberadd: int, casesense: bool, specialchars: bool)
    returns (r: Result<Unc>)
    ensures r.Ok? <==> forall i :: 0 <= i < |subsLines| ==> ParseRule(subsLines[i]).Ok?
    ensures r.Err? ==> r.error == MalformedRule
    ensures r.Ok? ==> (ParseSubs(subsLines).Ok? &&
                       r.value == Unc(numberadd, casesense, specialchars, ParseSubs(subsLines).value))
    ensures r.Ok? ==> DistinctKeys(r.value.subs)
  {
    var subs := ParseCommonSubsToDict(subsLines);
    ParseSubsOk(subsLines);
    if subs.Err? {
      ParseSubsError(subsLines);
      return Err(subs.error);
    }
    ParseSubsKeys(subsLines);
    return Ok(Unc(numberadd, casesense, specialchars, subs.value));
  }

  // ---------------------------------------------------------------------------
  // createOptions

  /** The usernames one pass of `createOptions` writes for a record: the base
      conventions, then their numbered variants when the bound is not
      negative, then substituted variants of all of those. */
  function Batch(u: Unc, rec: Record): seq<string>
    requires |rec.first| > 0 && |rec.second| > 0
  {
    var base := BaseOptions(rec.first, rec.second);
    var numbered := if u.numberadd >= 0 then base + NumberedOptions(base, u.numberadd) else base;
    if u.specialchars then numbered + Substituted(numbered, u.subs) else numbered
  }

  /** What `createOptions(user, casesense_run)` writes, as the sequence of
      batches it appends to the output file, or the exception it raises. */
  function Job(u: Unc, user: string, casesenseRun: bool): Result<seq<seq<string>>>
    decreases if casesenseRun then 0 else 1
  {
    var rec := ParseRecord(user);
    if rec.Err? then Err(rec.error)
    else
      var lowered := if u.casesense && !casesenseRun then Job(u, Lower(user), true) else Ok([]);
      if lowered.Err? then lowered else Ok(lowered.value + [Batch(u, rec.value)])
  }

  /** `createOptions`: parse the line, in case-sensitive mode first run the
      lower-cased line once (with `casesense_run` set), then build and write
      this line's batch. */
  method CreateOptions(u: Unc, user: string, casesenseRun: bool) returns (r: Result<seq<seq<string>>>)
    ensures r == Job(u, user, casesenseRun)
    decreases if casesenseRun then 0 else 1
  {
    var rec := ParseRecord(user);
    if rec.Err? {
      return Err(rec.error);
    }
    var batches: seq<seq<string>> := [];
    if u.casesense && !casesenseRun {
      var lowered := CreateOptions(u, Lower(user), true);
      if lowered.Err? {
        return lowered;
      }
      batches := lowered.value;
    }
    var options := ApplyOptionRules(rec.value.first, rec.value.second);
    ghost var base := options;
    if u.numberadd >= 0 {
      var numbered := AddNumbersToOptions(options, u.numberadd);
      options := options + numbered;
    }
    assert options == if u.numberadd >= 0 then base + NumberedOptions(base, u.numberadd) else base;
    if u.specialchars {
      var substituted := SpecialCharsSubstitute(options, u.subs);
      options := options + substituted;
    }
    assert options == Batch(u, rec.value);
    return Ok(batches + [options]);
  }

  /** A line fails exactly when it does not parse; it then writes nothing. */
  lemma JobFails(u: Unc, user: string, casesenseRun: bool)
    ensures Job(u, user, casesenseRun).Err? <==> ParseRecord(user).Err?
    ensures Job(u, user, casesenseRun).Err? ==> Job(u, user, casesenseRun) == Err(MalformedRecord)
  {
    if ParseRecord(user).Ok? {
      ParseRecordLower(user);
    }
  }

  /** The pass with `casesense_run` set writes one batch and recurses no
      further. */
  lemma JobSinglePass(u: Unc, user: string)
    requires ParseRecord(user).Ok?
    ensures Job(u, user, true) == Ok([Batch(u, ParseRecord(user).value)])
  {
    assert [] + [Batch(u, ParseRecord(user).value)] == [Batch(u, ParseRecord(user).value)];
  }

  /** Case-sensitive mode recurses exactly once: the lower-cased line's batch
      comes first, then the line's own; otherwise there is one batch. */
  lemma JobBatches(u: Unc, user: string)
    requires ParseRecord(user).Ok?
    ensures var rec := ParseRecord(user).value;
            var low := Record(Lower(rec.first), Lower(rec.second));
            |low.first| > 0 && |low.second| > 0 &&
            Job(u, user, false) ==
              Ok((if u.casesense then [Batch(u, low)] else []) + [Batch(u, rec)])
  {
    ParseRecordLower(user);
    JobSinglePass(u, Lower(user));
  }

  /** The size of one batch: `9 * (1 + k) * (1 + M)`, where `k` is `N + 1` for
      a positive bound `N` and 0 otherwise, and `M` is the table size when
      substitution is on and 0 otherwise. */
  lemma BatchLength(u: Unc, rec: Record)
    requires |rec.first| > 0 && |rec.second| > 0
    ensures var k := if u.numberadd > 0 then u.numberadd + 1 else 0;
            var m := if u.specialchars then |u.subs| else 0;
            |Batch(u, rec)| == 9 * (1 + k) * (1 + m)
  {
    var base := BaseOptions(rec.first, rec.second);
    var k := if u.numberadd > 0 then u.numberadd + 1 else 0;
    var numbered := if u.numberadd >= 0 then base + NumberedOptions(base, u.numberadd) else base;
    assert |numbered| == 9 * (1 + k) by {
      NumberedOptionsLength(base, u.numberadd);
    }
    if u.specialchars {
      SubstitutedLength(numbered, u.subs);
      assert Batch(u, rec) == numbered + Substituted(numbered, u.subs);
      SizeArith(|numbered|, k, |u.subs|);
    } else {
      assert Batch(u, rec) == numbered;
    }
  }

  lemma SizeArith(n: nat, k: nat, m: nat)
    requires n == 9 * (1 + k)
    ensures n + n * m == 9 * (1 + k) * (1 + m)
  {
  }

  /** Each stage only appends: the base conventions lead the batch, followed
      by their numbered variants, and substituted variants come last. */
  lemma BatchPrefixes(u: Unc, rec: Record)
    requires |rec.first| > 0 && |rec.second| > 0
    ensures var base := BaseOptions(rec.first, rec.second);
            base <= Batch(u, rec) &&
            (u.numberadd >= 0 ==> base + NumberedOptions(base, u.numberadd) <= Batch(u, rec))
  {
    var base := BaseOptions(rec.first, rec.second);
    var numbered := if u.numberadd >= 0 then base + NumberedOptions(base, u.numberadd) else base;
    assert base <= numbered;
    assert numbered <= Batch(u, rec);
  }

  /** A bound of 0 passes the guard of `createOptions` but
      `addNumbersToUsername` adds nothing for it: the batch is the same as
      with numbering off. */
  lemma ZeroBoundAddsNothing(u: Unc, rec: Record)
    requires |rec.first| > 0 && |rec.second| > 0 && u.numberadd == 0
    ensures Batch(u, rec) == Batch(u.(numberadd := -1), rec)
  {
    var base := BaseOptions(rec.first, rec.second);
    NumberedOptionsLength(base, 0);
    assert base + NumberedOptions(base, 0) == base;
  }

  /** Case-sensitive mode doubles the output of a line. */
  lemma CaseSensitiveDoubles(u: Unc, user: string)
    requires u.casesense && ParseRecord(user).Ok?
    ensures Job(u, user, false).Ok? && |Job(u, user, false).value| == 2
    ensures |Job(u, user, false).value[0]| == |Job(u, user, false).value[1]|
  {
    JobBatches(u, user);
    var rec := ParseRecord(user).value;
    BatchLength(u, rec);
    BatchLength(u, Record(Lower(rec.first), Lower(rec.second)));
  }

  /** Nothing is deduplicated: a line that is already lower case is written
      twice over in case-sensitive mode. */
  lemma LowerCaseLineWrittenTwice(u: Unc, user: string)
    requires u.casesense && ParseRecord(user).Ok?
    ensures Job(u, user, false).Ok? && |Job(u, user, false).value| == 2
    ensures Lower(user) == user ==> Job(u, user, false).value[0] == Job(u, user, false).value[1]
  {
    JobBatches(u, user);
    ParseRecordLower(user);
  }

  // ---------------------------------------------------------------------------
  // run

  /** The input lines `run` starts a thread for, in order: every line except
      those that are exactly "\n". */
  function Launched(lines: seq<string>): seq<string>
    decreases |lines|
  {
    if lines == [] then []
    else
      var last := lines[|lines| - 1];
      Launched(lines[..|lines| - 1]) + (if last == "\n" then [] else [last])
  }

  /** Number of lines that are exactly "\n". */
  function BlankLines(lines: seq<string>): nat
    decreases |lines|
  {
    if lines == [] then 0
    else BlankLines(lines[..|lines| - 1]) + (if lines[|lines| - 1] == "\n" then 1 else 0)
  }

  /** One thread per line that is not exactly "\n", and no other: each such
      line is launched as often as it occurs. */
  lemma LaunchedLines(lines: seq<string>)
    ensures |Launched(lines)| == |lines| - BlankLines(lines)
    ensures forall l :: l in Launched(lines) <==> l in lines && l != "\n"
    ensures forall l :: l != "\n" ==> multiset(Launched(lines))[l] == multiset(lines)[l]
    ensures multiset(Launched(lines))["\n"] == 0
  {
    LaunchedCount(lines);
    LaunchedMultiset(lines);
    assert forall l :: l in Launched(lines) <==> l in multiset(Launched(lines));
    assert forall l :: l in lines <==> l in multiset(lines);
  }

  lemma {:induction false} LaunchedCount(lines: seq<string>)
    ensures |Launched(lines)| == |lines| - BlankLines(lines)
    decreases |lines|
  {
    if lines != [] {
      LaunchedCount(lines[..|lines| - 1]);
    }
  }

  /** The launched lines, counted with repetition, are the input lines with
      every "\n" removed. */
  lemma {:induction false} LaunchedMultiset(lines: seq<string>)
    ensures multiset(Launched(lines)) == multiset(lines)["\n" := 0]
    decreases |lines|
  {
    if lines != [] {
      var init := lines[..|lines| - 1];
      var last := lines[|lines| - 1];
      LaunchedMultiset(init);
      assert lines == init + [last];
      assert multiset(lines) == multiset(init) + multiset{last};
    }
  }

  /** The positions of the launched lines in the input. */
  function LaunchedPositions(lines: seq<string>): seq<nat>
    decreases |lines|
  {
    if lines == [] then []
    else
      LaunchedPositions(lines[..|lines| - 1]) + (if lines[|lines| - 1] == "\n" then [] else [|lines| - 1])
  }

  /** Threads start in input order: the launched lines are the lines that
      are not exactly "\n", taken at increasing positions, and every such
      position is taken. */
  lemma LaunchedInOrder(lines: seq<string>)
    ensures var ix := LaunchedPositions(lines);
            |ix| == |Launched(lines)| &&
            (forall k :: 0 <= k < |ix| ==> ix[k] < |lines| && lines[ix[k]] == Launched(lines)[k]) &&
            (forall k, k' :: 0 <= k < k' < |ix| ==> ix[k] < ix[k']) &&
            (forall i :: 0 <= i < |lines| && lines[i] != "\n" ==> i in ix) &&
            (forall k :: 0 <= k < |ix| ==> lines[ix[k]] != "\n")
  {
    var ix := LaunchedPositions(lines);
    LaunchedPositionsLength(lines);
    LaunchedPositionsIncreasing(lines);
    forall k | 0 <= k < |ix|
      ensures ix[k] < |lines| && lines[ix[k]] == Launched(lines)[k] && lines[ix[k]] != "\n"
    {
      LaunchedPositionsAt(lines, k);
    }
    forall i | 0 <= i < |lines| && lines[i] != "\n" ensures i in ix {
      LaunchedPositionsCover(lines, i);
    }
  }

  lemma {:induction false} LaunchedPositionsLength(lines: seq<string>)
    ensures |LaunchedPositions(lines)| == |Launched(lines)|
    decreases |lines|
  {
    if lines != [] {
      LaunchedPositionsLength(lines[..|lines| - 1]);
    }
  }

  lemma {:induction false} LaunchedPositionsAt(lines: seq<string>, k: nat)
    requires k < |LaunchedPositions(lines)|
    ensures LaunchedPositions(lines)[k] < |lines|
    ensures k < |Launched(lines)|
    ensures lines[LaunchedPositions(lines)[k]] == Launched(lines)[k] != "\n"
    decreases |lines|
  {
    var init := lines[..|lines| - 1];
    LaunchedPositionsLength(init);
    LaunchedPositionsLength(lines);
    if k < |LaunchedPositions(init)| {
      LaunchedPositionsAt(init, k);
      assert init[LaunchedPositions(init)[k]] == lines[LaunchedPositions(init)[k]];
    }
  }

  /** Every position is below the input length, and positions increase. */
  lemma {:induction false} LaunchedPositionsIncreasing(lines: seq<string>)
    ensures forall k :: 0 <= k < |LaunchedPositions(lines)| ==> LaunchedPositions(lines)[k] < |lines|
    ensures forall k, k' :: 0 <= k < k' < |LaunchedPositions(lines)| ==>
              LaunchedPositions(lines)[k] < LaunchedPositions(lines)[k']
    decreases |lines|
  {
    if lines != [] {
      LaunchedPositionsIncreasing(lines[..|lines| - 1]);
    }
  }

  lemma {:induction false} LaunchedPositionsCover(lines: seq<string>, i: nat)
    requires i < |lines| && lines[i] != "\n"
    ensures i in LaunchedPositions(lines)
    decreases |lines|
  {
    var init := lines[..|lines| - 1];
    if i < |init| {
      assert init[i] == lines[i];
      LaunchedPositionsCover(init, i);
    }
  }

  /** The result of `createOptions(user)` for each line, in order. */
  function Jobs(u: Unc, users: seq<string>): (rs: seq<Result<seq<seq<string>>>>)
    ensures |rs| == |users|
    ensures forall i :: 0 <= i < |users| ==> rs[i] == Job(u, users[i], false)
  {
    seq(|users|, i requires 0 <= i < |users| => Job(u, users[i], false))
  }

  lemma JobsSnoc(u: Unc, users: seq<string>, extra: seq<string>)
    requires |extra| <= 1
    ensures Jobs(u, users + extra) == Jobs(u, users) + Jobs(u, extra)
  {
    var a := Jobs(u, users + extra);
    var b := Jobs(u, users) + Jobs(u, extra);
    assert |a| == |b|;
    forall i | 0 <= i < |a| ensures a[i] == b[i] {
      if i < |users| {
        assert (users + extra)[i] == users[i];
      } else {
        assert (users + extra)[i] == extra[i - |users|];
      }
    }
  }

  /** `run`: each launched line's thread runs `createOptions(user)`; the
      result of each is returned in launch order. */
  method Run(u: Unc, lines: seq<string>) returns (results: seq<Result<seq<seq<string>>>>)
    ensures |results| == |Launched(lines)|
    ensures forall i :: 0 <= i < |results| ==> results[i] == Job(u, Launched(lines)[i], false)
  {
    results := [];
    for i := 0 to |lines|
      invariant results == Jobs(u, Launched(lines[..i]))
    {
      LaunchedStep(lines, i);
      var extra := if lines[i] == "\n" then [] else [lines[i]];
      JobsSnoc(u, Launched(lines[..i]), extra);
      if lines[i] != "\n" {
        var r := CreateOptions(u, lines[i], false);
        results := results + [r];
      }
    }
    assert lines[..|lines|] == lines;
  }

  lemma LaunchedStep(lines: seq<string>, i: nat)
    requires i < |lines|
    ensures Launched(lines[..i + 1]) ==
            Launched(lines[..i]) + (if lines[i] == "\n" then [] else [lines[i]])
  {
    assert lines[..i + 1][..i] == lines[..i];
  }

  /** A line of only whitespace other than "\n" itself is not skipped: its
      thread is started and fails to parse. */
  lemma BlankButNotEmptyLineFails(u: Unc, line: string)
    requires line != "\n" && forall k :: 0 <= k < |line| ==> IsSpace(line[k])
    ensures Launched([line]) == [line]
    ensures Job(u, line, false) == Err(MalformedRecord)
  {
    assert [line][..0] == [];
    AllSpaceStrips(line);
  }

  /** Stripping a string of only whitespace leaves nothing. */
  lemma AllSpaceStrips(s: string)
    requires forall k :: 0 <= k < |s| ==> IsSpace(s[k])
    ensures Strip(s) == []
  {
  }

  // ---------------------------------------------------------------------------
  // Worked examples

  /** `John Doe` with the default settings gives the nine conventions. */
  lemma JohnDoeDefault()
    ensures Job(Unc(-1, false, false, []), "John Doe\n", false) ==
            Ok([["John", "Doe", "JohnDoe", "John.Doe", "JDoe", "J.Doe", "DoeJohn", "DoeJ", "DJohn"]])
  {
    var u := Unc(-1, false, false, []);
    var rec := Record("John", "Doe");
    JohnDoeParses();
    JohnDoeBase();
    JobBatches(u, "John Doe\n");
    assert [] + [Batch(u, rec)] == [Batch(u, rec)];
  }

  lemma JohnDoeBase()
    ensures BaseOptions("John", "Doe") ==
            ["John", "Doe", "JohnDoe", "John.Doe", "JDoe", "J.Doe", "DoeJohn", "DoeJ", "DJohn"]
  {
    assert "John" + "Doe" == "JohnDoe";
    assert "John" + "." + "Doe" == "John.Doe";
    assert ['J'] + "Doe" == "JDoe";
    assert ['J'] + "." + "Doe" == "J.Doe";
    assert "Doe" + "John" == "DoeJohn";
    assert "Doe" + ['J'] == "DoeJ";
    assert ['D'] + "John" == "DJohn";
  }

  /** `John Doe` with `-n 1` gives the nine conventions and then each with the
      suffixes 0 and 1: 27 usernames. */
  lemma JohnDoeNumbered()
    ensures Job(Unc(1, false, false, []), "John Doe\n", false).Ok?
    ensures var b := Job(Unc(1, false, false, []), "John Doe\n", false).value;
            |b| == 1 && |b[0]| == 27 && b[0][9] == "John0" && b[0][10] == "John1" && b[0][26] == "DJohn1"
  {
    var u := Unc(1, false, false, []);
    var rec := Record("John", "Doe");
    JohnDoeParses();
    JobBatches(u, "John Doe\n");
    assert [] + [Batch(u, rec)] == [Batch(u, rec)];
    JohnDoeNumberedBatch();
  }

  lemma JohnDoeNumberedBatch()
    ensures var b := Batch(Unc(1, false, false, []), Record("John", "Doe"));
            |b| == 27 && b[9] == "John0" && b[10] == "John1" && b[26] == "DJohn1"
  {
    var u := Unc(1, false, false, []);
    var rec := Record("John", "Doe");
    var base := BaseOptions("John", "Doe");
    JohnDoeBase();
    BatchLength(u, rec);
    assert Batch(u, rec) == base + NumberedOptions(base, 1);
    NumberedOptionsAt(base, 1, 0, 0);
    NumberedOptionsAt(base, 1, 0, 1);
    NumberedOptionsAt(base, 1, 8, 1);
    assert NatToString(0) == "0" && NatToString(1) == "1";
  }

  lemma JohnDoeParses()
    ensures ParseRecord("John Doe\n") == Ok(Record("John", "Doe"))
  {
    JohnDoeStrips();
    JohnDoeSplits();
  }

  lemma JohnDoeStrips()
    ensures Strip("John Doe\n") == "John Doe"
  {
    var s := "John Doe\n";
    assert !IsSpace(s[0]);
    assert LStrip(s) == s;
    assert IsSpace(s[8]) && s[..8] == "John Doe";
    assert !IsSpace("John Doe"[7]);
    assert RStrip(s) == RStrip("John Doe") == "John Doe";
  }

  lemma JohnDoeSplits()
    ensures Split("John Doe", ' ') == ["John", "Doe"]
  {
    var s := "John Doe";
    assert s[..4] == "John" && s[4] == ' ' && s[5..] == "Doe";
    assert forall k :: 0 <= k < 4 ==> s[k] != ' ';
    IndexOfIs(s, ' ', 4);
    var t := "Doe";
    assert forall k :: 0 <= k < 3 ==> t[k] != ' ';
    IndexOfIs(t, ' ', 3);
  }
}

/** The `key=value` parser applied to the output of `rkt status`
    (`_parse_keyval`): one pair per line, empty lines skipped, the first `=`
    separates key from value, a later key overwrites an earlier one, and a
    non-empty line without `=` fails the whole parse. */
module KeyVal {
  import opened Outcomes
  import opened Text

  /** The `ValueError` raised when a line cannot be unpacked into key and value. */
  datatype ParseError = MalformedLine(line: string)

  /** A non-empty line without `=`. */
  predicate Malformed(line: string) {
    line != [] && '=' !in line
  }

  /** The text before the first `=` of a line. */
  function Key(line: string): string {
    line[..IndexOf(line, '=')]
  }

  /** The text after the first `=` of a line (empty when there is none). */
  function Val(line: string): string {
    var n := IndexOf(line, '=');
    if n == |line| then [] else line[n + 1..]
  }

  /** Line `i` is a non-empty line of `lines` with key `k`. */
  ghost predicate HasKey(lines: seq<string>, i: int, k: string) {
    0 <= i < |lines| && lines[i] != [] && Key(lines[i]) == k
  }

  /** Line `i` is the last non-empty line of `lines` whose key is `k`. */
  ghost predicate LastEntry(lines: seq<string>, i: int, k: string) {
    && HasKey(lines, i, k)
    && forall j :: i < j < |lines| ==> !HasKey(lines, j, k)
  }

  /** No line of `lines` is malformed. */
  ghost predicate WellFormed(lines: seq<string>) {
    forall i :: 0 <= i < |lines| ==> !Malformed(lines[i])
  }

  /** Line `i` is the first malformed line of `lines`. */
  ghost predicate FirstMalformed(lines: seq<string>, i: int) {
    0 <= i < |lines| && Malformed(lines[i]) && WellFormed(lines[..i])
  }

  /** `m` holds what the lines say: the keys of the non-empty lines, each
      mapped to the value of the last line that carries it. */
  ghost predicate Describes(lines: seq<string>, m: map<string, string>) {
    && (forall k :: k in m <==> exists i :: HasKey(lines, i, k))
    && (forall k :: k in m ==> exists i :: LastEntry(lines, i, k) && m[k] == Val(lines[i]))
  }

  /** The loop of `_parse_keyval` over an already split list of lines, as a
      fold of `ParseStep` from the first line to the last. */
  function ParseLines(lines: seq<string>): Result<map<string, string>, ParseError>
    decreases |lines|
  {
    if lines == [] then Success(map[])
    else ParseStep(ParseLines(lines[..|lines| - 1]), lines[|lines| - 1])
  }

  /** The parse fails exactly when some line is malformed, reporting the first
      one; otherwise its keys are the keys of the non-empty lines and each key
      maps to the value of the last line that carries it. */
  lemma {:induction false} ParseLinesSound(lines: seq<string>)
    ensures ParseLines(lines).Failure? <==> !WellFormed(lines)
    ensures ParseLines(lines).Failure? ==>
      exists i :: FirstMalformed(lines, i) && ParseLines(lines).error == MalformedLine(lines[i])
    ensures ParseLines(lines).Success? ==> Describes(lines, ParseLines(lines).value)
    decreases |lines|
  {
    if lines != [] {
      var init := lines[..|lines| - 1];
      var line := lines[|lines| - 1];
      ParseLinesSound(init);
      assert lines == init + [line];
      ParseStepSound(init, line, ParseLines(init));
    }
  }

  /** One turn of the loop of `_parse_keyval`: skip an empty line, store a
      `key=value` line under the text before its first `=`, fail on any other
      line; an earlier failure stands. */
  function ParseStep(prev: Result<map<string, string>, ParseError>, line: string): (r: Result<map<string, string>, ParseError>)
    ensures prev.Failure? ==> r == prev
    ensures prev.Success? && line == [] ==> r == prev
    ensures prev.Success? && Malformed(line) ==> r == Failure(MalformedLine(line))
    ensures prev.Success? && '=' in line ==> r == Success(prev.value[Key(line) := Val(line)])
  {
    match prev
    case Failure(e) => Failure(e)
    case Success(m) =>
      if line == [] then Success(m)
      else
        match SplitFirst(line, '=')
        case None => Failure(MalformedLine(line))
        case Some(kv) => Success(m[kv.0 := kv.1])
  }

  lemma ParseStepSound(init: seq<string>, line: string, prev: Result<map<string, string>, ParseError>)
    requires prev.Failure? <==> !WellFormed(init)
    requires prev.Failure? ==> exists i :: FirstMalformed(init, i) && prev.error == MalformedLine(init[i])
    requires prev.Success? ==> Describes(init, prev.value)
    ensures var r := ParseStep(prev, line);
      && (r.Failure? <==> !WellFormed(init + [line]))
      && (r.Failure? ==> exists i :: FirstMalformed(init + [line], i) && r.error == MalformedLine((init + [line])[i]))
      && (r.Success? ==> Describes(init + [line], r.value))
  {
    match prev
    case Failure(e) =>
      ExtendFailure(init, line, e);
    case Success(m) =>
      if line == [] {
        ExtendEmpty(init, m);
      } else {
        match SplitFirst(line, '=')
        case None =>
          ExtendMalformed(init, line);
        case Some(kv) =>
          ExtendEntry(init, kv.0, kv.1, m);
          assert line == kv.0 + "=" + kv.1;
      }
  }

  lemma ExtendFailure(init: seq<string>, line: string, e: ParseError)
    requires exists i :: FirstMalformed(init, i) && e == MalformedLine(init[i])
    ensures exists i :: FirstMalformed(init + [line], i) && e == MalformedLine((init + [line])[i])
    ensures !WellFormed(init + [line])
  {
    var i :| FirstMalformed(init, i) && e == MalformedLine(init[i]);
    assert (init + [line])[..i] == init[..i];
    assert (init + [line])[i] == init[i];
  }

  lemma ExtendMalformed(init: seq<string>, line: string)
    requires WellFormed(init) && Malformed(line)
    ensures FirstMalformed(init + [line], |init|)
    ensures !WellFormed(init + [line])
  {
    assert (init + [line])[..|init|] == init;
    assert (init + [line])[|init|] == line;
  }

  /** Appending a line leaves what is said about the earlier lines unchanged. */
  lemma HasKeyAppend(init: seq<string>, line: string, i: int, k: string)
    requires 0 <= i < |init|
    ensures HasKey(init + [line], i, k) <==> HasKey(init, i, k)
  {
    assert (init + [line])[i] == init[i];
  }

  lemma ExtendEmpty(init: seq<string>, m: map<string, string>)
    requires WellFormed(init) && Describes(init, m)
    ensures WellFormed(init + [""]) && Describes(init + [""], m)
  {
    var all := init + [""];
    assert all[|init|] == "";
    forall k | true
      ensures k in m <==> exists i :: HasKey(all, i, k)
    {
      if i :| HasKey(all, i, k) {
        HasKeyAppend(init, "", i, k);
      }
      if i :| HasKey(init, i, k) {
        HasKeyAppend(init, "", i, k);
      }
    }
    forall k | k in m
      ensures exists i :: LastEntry(all, i, k) && m[k] == Val(all[i])
    {
      var i :| LastEntry(init, i, k) && m[k] == Val(init[i]);
      forall j | i < j < |all|
        ensures !HasKey(all, j, k)
      {
        if j < |init| {
          HasKeyAppend(init, "", j, k);
        }
      }
      HasKeyAppend(init, "", i, k);
      assert all[i] == init[i];
      assert LastEntry(all, i, k);
    }
    assert forall i :: 0 <= i < |init| ==> all[i] == init[i];
  }

  lemma KeyValOfEntry(k: string, v: string)
    requires '=' !in k
    ensures Key(k + "=" + v) == k && Val(k + "=" + v) == v
  {
    var line := k + "=" + v;
    assert IndexOf(line, '=') == |k| by {
      assert line[|k|] == '=';
      assert forall i :: 0 <= i < |k| ==> line[i] == k[i];
    }
    assert line[..|k|] == k;
    assert line[|k| + 1..] == v;
  }

  lemma ExtendEntry(init: seq<string>, k: string, v: string, m: map<string, string>)
    requires '=' !in k
    requires WellFormed(init) && Describes(init, m)
    ensures WellFormed(init + [k + "=" + v]) && Describes(init + [k + "=" + v], m[k := v])
  {
    var line := k + "=" + v;
    var all := init + [line];
    var n := |init|;
    var m' := m[k := v];
    KeyValOfEntry(k, v);
    assert all[n] == line;
    assert HasKey(all, n, k);
    assert LastEntry(all, n, k);
    forall k' | true
      ensures k' in m' <==> exists i :: HasKey(all, i, k')
    {
      if k' != k {
        if i :| HasKey(all, i, k') {
          assert i != n;
          HasKeyAppend(init, line, i, k');
        }
        if i :| HasKey(init, i, k') {
          HasKeyAppend(init, line, i, k');
        }
      }
    }
    forall k' | k' in m'
      ensures exists i :: LastEntry(all, i, k') && m'[k'] == Val(all[i])
    {
      if k' != k {
        var i :| LastEntry(init, i, k') && m[k'] == Val(init[i]);
        forall j | i < j < |all|
          ensures !HasKey(all, j, k')
        {
          if j < n {
            HasKeyAppend(init, line, j, k');
          }
        }
        HasKeyAppend(init, line, i, k');
        assert all[i] == init[i];
        assert LastEntry(all, i, k');
      }
    }
    assert forall i :: 0 <= i < n ==> all[i] == init[i];
  }

  /** `_parse_keyval(output)`: the parse of the lines of `output`. Keys
      contain neither `=` nor a line break; values contain no line break but
      may contain `=`. `ParseKeyvalSpec` says which outputs fail and what the
      map holds. */
  function ParseKeyval(output: string): (r: Result<map<string, string>, ParseError>)
    ensures r.Success? ==> forall k :: k in r.value ==> '=' !in k && NoLineBreaks(k) && NoLineBreaks(r.value[k])
  {
    var lines := SplitLines(output);
    CleanEntries(lines);
    ParseLines(lines)
  }

  /** `_parse_keyval` fails exactly when a line of `output` is malformed,
      reporting the first such line; otherwise it maps the key of each
      non-empty line to the value of the last line with that key. */
  lemma ParseKeyvalSpec(output: string)
    ensures ParseKeyval(output).Failure? <==> !WellFormed(SplitLines(output))
    ensures ParseKeyval(output).Failure? ==>
      exists i :: FirstMalformed(SplitLines(output), i) && ParseKeyval(output).error == MalformedLine(SplitLines(output)[i])
    ensures ParseKeyval(output).Success? ==> Describes(SplitLines(output), ParseKeyval(output).value)
  {
    ParseLinesSound(SplitLines(output));
  }

  /** Lines free of line breaks parse to keys and values free of them. */
  lemma CleanEntries(lines: seq<string>)
    requires forall i :: 0 <= i < |lines| ==> NoLineBreaks(lines[i])
    ensures var r := ParseLines(lines);
      r.Success? ==> forall k :: k in r.value ==> '=' !in k && NoLineBreaks(k) && NoLineBreaks(r.value[k])
  {
    var r := ParseLines(lines);
    ParseLinesSound(lines);
    if r.Success? {
      forall k | k in r.value
        ensures '=' !in k && NoLineBreaks(k) && NoLineBreaks(r.value[k])
      {
        var i :| LastEntry(lines, i, k) && r.value[k] == Val(lines[i]);
        KeyValParts(lines[i]);
      }
    }
  }

  lemma KeyValParts(line: string)
    requires NoLineBreaks(line)
    ensures '=' !in Key(line) && NoLineBreaks(Key(line)) && NoLineBreaks(Val(line))
  {
  }

  /** The imperative loop of `_parse_keyval`, line by line, computes `ParseKeyval`. */
  method ParseKeyvalLoop(output: string) returns (r: Result<map<string, string>, ParseError>)
    ensures r == ParseKeyval(output)
  {
    var lines := SplitLines(output);
    var res: map<string, string> := map[];
    var i := 0;
    while i < |lines|
      invariant 0 <= i <= |lines|
      invariant ParseLines(lines[..i]) == Success(res)
    {
      var line := lines[i];
      ghost var upTo := lines[..i + 1];
      assert upTo[..i] == lines[..i] && upTo[i] == line;
      ParseLinesUnfold(upTo);
      if line != [] {
        var kv := SplitFirst(line, '=');
        if kv.None? {
          MalformedPrefixDecides(lines, i);
          return Failure(MalformedLine(line));
        }
        res := res[kv.value.0 := kv.value.1];
      }
      i := i + 1;
    }
    assert lines[..i] == lines;
    return Success(res);
  }

  /** Once the parse has failed, further lines do not matter. */
  lemma {:induction false} FailureStands(xs: seq<string>, ys: seq<string>)
    requires ParseLines(xs).Failure?
    ensures ParseLines(xs + ys) == ParseLines(xs)
    decreases |ys|
  {
    if ys == [] {
      assert xs + ys == xs;
    } else {
      var ys' := ys[..|ys| - 1];
      var a := xs + ys;
      assert a[..|a| - 1] == xs + ys';
      FailureStands(xs, ys');
      ParseLinesUnfold(a);
    }
  }

  /** The first malformed line decides the outcome of the whole parse. */
  lemma MalformedPrefixDecides(lines: seq<string>, i: int)
    requires 0 <= i < |lines| && Malformed(lines[i])
    requires ParseLines(lines[..i]).Success?
    ensures ParseLines(lines) == Failure(MalformedLine(lines[i]))
  {
    var upTo := lines[..i + 1];
    assert upTo[..i] == lines[..i] && upTo[i] == lines[i];
    ParseLinesUnfold(upTo);
    assert SplitFirst(lines[i], '=').None?;
    FailureStands(upTo, lines[i + 1..]);
    assert upTo + lines[i + 1..] == lines;
  }

  lemma ParseLinesUnfold(lines: seq<string>)
    requires lines != []
    ensures ParseLines(lines) == ParseStep(ParseLines(lines[..|lines| - 1]), lines[|lines| - 1])
  {
  }

  lemma ParseLinesEmptyLast(xs: seq<string>)
    ensures ParseLines(xs + [""]) == ParseLines(xs)
  {
    var a := xs + [""];
    assert a[..|a| - 1] == xs;
    ParseLinesUnfold(a);
  }

  /** Empty lines are skipped: inserting one anywhere changes nothing. A line
      holding only whitespace is not empty and is parsed like any other. */
  lemma {:induction false} ParseLinesSkipsEmpty(xs: seq<string>, ys: seq<string>)
    ensures ParseLines(xs + [""] + ys) == ParseLines(xs + ys)
    decreases |ys|
  {
    if ys == [] {
      ParseLinesEmptyLast(xs);
      assert xs + [""] + ys == xs + [""];
      assert xs + ys == xs;
    } else {
      var ys', y := ys[..|ys| - 1], ys[|ys| - 1];
      var a, b := xs + [""] + ys, xs + ys;
      assert a[..|a| - 1] == xs + [""] + ys';
      assert b[..|b| - 1] == xs + ys';
      ParseLinesSkipsEmpty(xs, ys');
      ParseLinesUnfold(a);
      ParseLinesUnfold(b);
    }
  }

  /** A well-formed line `k=v` records exactly `v` under `k`, overwriting any
      earlier value; `v` may itself contain `=`. */
  lemma ParseLinesLastWins(xs: seq<string>, k: string, v: string)
    requires '=' !in k
    requires ParseLines(xs).Success?
    ensures ParseLines(xs + [k + "=" + v]) == Success(ParseLines(xs).value[k := v])
  {
    var line := k + "=" + v;
    var all := xs + [line];
    assert all[..|all| - 1] == xs;
    assert SplitFirst(line, '=') == Some((k, v)) by {
      assert IndexOf(line, '=') == |k| by {
        assert line[|k|] == '=';
        assert forall i :: 0 <= i < |k| ==> line[i] == k[i];
      }
      assert line[..|k|] == k;
      assert line[|k| + 1..] == v;
    }
  }

  /** A non-empty line without `=` anywhere fails the parse. */
  lemma ParseLinesRejectsMalformed(xs: seq<string>, line: string, ys: seq<string>)
    requires Malformed(line)
    ensures ParseLines(xs + [line] + ys).Failure?
  {
    var all := xs + [line] + ys;
    assert all[|xs|] == line;
    ParseLinesSound(all);
  }

  /** Two well-formed lines record both pairs, the second one last. */
  lemma ParseLinesTwoEntries(k1: string, v1: string, k2: string, v2: string)
    requires '=' !in k1 && '=' !in k2
    ensures ParseLines([k1 + "=" + v1, k2 + "=" + v2]) == Success(map[k1 := v1][k2 := v2])
  {
    var none: seq<string> := [];
    ParseLinesLastWins(none, k1, v1);
    assert none + [k1 + "=" + v1] == [k1 + "=" + v1];
    ParseLinesLastWins([k1 + "=" + v1], k2, v2);
    assert [k1 + "=" + v1] + [k2 + "=" + v2] == [k1 + "=" + v1, k2 + "=" + v2];
  }

  /** Parsing lines joined by `\n` is parsing the lines themselves. */
  lemma ParseKeyvalOfJoinLines(lines: seq<string>)
    requires forall k :: 0 <= k < |lines| ==> NoLineBreaks(lines[k])
    ensures ParseKeyval(JoinLines(lines)) == ParseLines(lines)
  {
    SplitLinesJoinLines(lines);
  }

  lemma StatusOutputIsJoined()
    ensures "state=running\npid=1234\n" == JoinLines(["state=running", "pid=1234"])
  {
  }

  /** Two `key=value` lines, each ended by `\n`, parse to both pairs. */
  lemma ParseKeyvalTwoLines(k1: string, v1: string, k2: string, v2: string)
    requires '=' !in k1 && '=' !in k2
    requires NoLineBreaks(k1 + "=" + v1) && NoLineBreaks(k2 + "=" + v2)
    ensures ParseKeyval(JoinLines([k1 + "=" + v1, k2 + "=" + v2])) == Success(map[k1 := v1][k2 := v2])
  {
    ParseKeyvalOfJoinLines([k1 + "=" + v1, k2 + "=" + v2]);
    ParseLinesTwoEntries(k1, v1, k2, v2);
  }

  /** The status output of a running container parses to its two fields. */
  lemma StatusOutputExample()
    ensures ParseKeyval("state=running\npid=1234\n") == Success(map["state" := "running", "pid" := "1234"])
  {
    StatusOutputIsJoined();
    assert "state" + "=" + "running" == "state=running";
    assert "pid" + "=" + "1234" == "pid=1234";
    ParseKeyvalTwoLines("state", "running", "pid", "1234");
  }
}

/** The substitution table of the generator: a Python dict read from
    `key=val` lines (`UNC.parseCommonSubsToDict`). */
module Substitutions {
  import opened PyStr
  import opened Results

  /** A Python dict from `str` to `str`, as its items in insertion order. */
  type Table = seq<(string, string)>

  /** A dict holds every key once. */
  predicate DistinctKeys(t: Table)
  {
    forall i, j :: 0 <= i < j < |t| ==> t[i].0 != t[j].0
  }

  function Keys(t: Table): set<string>
  {
    set i | 0 <= i < |t| :: t[i].0
  }

  /** Position of key `k` among the items, or `|t|` when it is absent. */
  function Find(t: Table, k: string): (i: nat)
    ensures i <= |t|
    ensures i < |t| ==> t[i].0 == k
    ensures forall j :: 0 <= j < i ==> t[j].0 != k
    ensures i < |t| <==> k in Keys(t)
    decreases |t|
  {
    if |t| == 0 then 0
    else if t[0].0 == k then 0
    else
      var i := 1 + Find(t[1..], k);
      assert k in Keys(t) ==> exists j :: 0 <= j < |t| && t[j].0 == k;
      assert forall j :: 1 <= j < |t| ==> t[j] == t[1..][j - 1];
      i
  }

  /** In a dict the key of an item leads back to that item. */
  lemma FindDistinct(t: Table, j: nat)
    requires DistinctKeys(t) && j < |t|
    ensures Find(t, t[j].0) == j
  {
  }

  /** The dict as a mathematical map: `d[k]` for every `k in d`. */
  function ToMap(t: Table): map<string, string>
  {
    map k | k in Keys(t) :: t[Find(t, k)].1
  }

  /** `d[k] = v` */
  function Put(t: Table, k: string, v: string): Table
  {
    var i := Find(t, k);
    if i < |t| then t[i := (k, v)] else t + [(k, v)]
  }

  /** An existing key keeps its place and gets the new value, a new key goes
      to the end; every other item stays as it was. */
  lemma PutSpec(t: Table, k: string, v: string)
    ensures var r := Put(t, k, v);
            (DistinctKeys(t) ==> DistinctKeys(r)) &&
            Keys(r) == Keys(t) + {k} &&
            (k in Keys(t) ==> |r| == |t| && forall j :: 0 <= j < |t| ==> r[j].0 == t[j].0) &&
            (k !in Keys(t) ==> r == t + [(k, v)]) &&
            (forall j :: 0 <= j < |t| && t[j].0 != k ==> r[j] == t[j]) &&
            Find(r, k) < |r| && r[Find(r, k)] == (k, v)
  {
    if Find(t, k) < |t| {
      PutExisting(t, k, v);
    } else {
      PutNew(t, k, v);
    }
  }

  lemma PutExisting(t: Table, k: string, v: string)
    requires k in Keys(t)
    ensures var r := Put(t, k, v);
            (DistinctKeys(t) ==> DistinctKeys(r)) &&
            Keys(r) == Keys(t) &&
            |r| == |t| && (forall j :: 0 <= j < |t| ==> r[j].0 == t[j].0) &&
            (forall j :: 0 <= j < |t| && t[j].0 != k ==> r[j] == t[j]) &&
            Find(r, k) < |r| && r[Find(r, k)] == (k, v)
  {
    var r := Put(t, k, v);
    assert forall j :: 0 <= j < |t| ==> r[j].0 == t[j].0;
    assert Keys(r) == Keys(t);
  }

  lemma PutNew(t: Table, k: string, v: string)
    requires k !in Keys(t)
    ensures var r := Put(t, k, v);
            (DistinctKeys(t) ==> DistinctKeys(r)) &&
            Keys(r) == Keys(t) + {k} &&
            r == t + [(k, v)] &&
            Find(r, k) < |r| && r[Find(r, k)] == (k, v)
  {
    var r := Put(t, k, v);
    assert r == t + [(k, v)];
    forall x | x in Keys(r) ensures x in Keys(t) + {k} {
      var j :| 0 <= j < |r| && r[j].0 == x;
      if j < |t| {
        assert t[j].0 == x;
      }
    }
    forall x | x in Keys(t) ensures x in Keys(r) {
      var j :| 0 <= j < |t| && t[j].0 == x;
      assert r[j].0 == x;
    }
    assert r[|t|].0 == k;
  }

  /** `Put` is map update on the dict's contents. */
  lemma PutToMap(t: Table, k: string, v: string)
    requires DistinctKeys(t)
    ensures ToMap(Put(t, k, v)) == ToMap(t)[k := v]
  {
    var r := Put(t, k, v);
    PutSpec(t, k, v);
    var m := ToMap(t)[k := v];
    assert ToMap(r).Keys == Keys(r) == m.Keys;
    forall k' | k' in Keys(r)
      ensures ToMap(r)[k'] == m[k']
    {
      if k' != k {
        var j := Find(t, k');
        assert r[j] == t[j];
        FindDistinct(r, j);
      }
    }
  }

  /** One line of the substitution file: the stripped line, split on `=`,
      must give exactly a key and a value. */
  function ParseRule(line: string): Result<(string, string)>
  {
    var parts := Split(Strip(line), '=');
    if |parts| == 2 then Ok((parts[0], parts[1])) else Err(MalformedRule)
  }

  /** A rule line parses exactly when its stripped text has one `=`, and then
      the key and value are the text either side of it. */
  lemma ParseRuleSpec(line: string)
    ensures ParseRule(line).Ok? <==> Count(Strip(line), '=') == 1
    ensures ParseRule(line).Ok? ==>
              var (k, v) := ParseRule(line).value;
              Strip(line) == k + "=" + v && '=' !in k && '=' !in v
  {
    SplitCount(Strip(line), '=');
    if ParseRule(line).Ok? {
      SplitTwo(Strip(line), '=');
    }
  }

  /** Each line of the file, parsed. */
  function Rules(lines: seq<string>): (rules: seq<Result<(string, string)>>)
    ensures |rules| == |lines|
    ensures forall i :: 0 <= i < |lines| ==> rules[i] == ParseRule(lines[i])
  {
    seq(|lines|, i requires 0 <= i < |lines| => ParseRule(lines[i]))
  }

  /** The dict built from the lines of the file; the first bad line aborts. */
  function ParseSubs(lines: seq<string>): Result<Table>
  {
    Collect(Rules(lines))
  }

  /** The dict built from a sequence of parsed lines. */
  function Collect(rules: seq<Result<(string, string)>>): Result<Table>
    decreases |rules|
  {
    if rules == [] then Ok([]) else AddRule(Collect(rules[..|rules| - 1]), rules[|rules| - 1])
  }

  /** One turn of the loop in `parseCommonSubsToDict`: `d[key] = val`. */
  function AddRule(acc: Result<Table>, rule: Result<(string, string)>): Result<Table>
  {
    if acc.Err? then acc
    else if rule.Err? then Err(MalformedRule)
    else Ok(Put(acc.value, rule.value.0, rule.value.1))
  }

  /** `parseCommonSubsToDict` over the lines of the file. */
  method ParseCommonSubsToDict(lines: seq<string>) returns (r: Result<Table>)
    ensures r == ParseSubs(lines)
  {
    ghost var rules := Rules(lines);
    var d: Table := [];
    var i := 0;
    while i < |lines|
      invariant 0 <= i <= |lines|
      invariant Collect(rules[..i]) == Ok(d)
    {
      var rule := ParseRule(lines[i]);
      assert rule == rules[i];
      CollectStep(rules, i);
      if rule.Err? {
        CollectAbort(rules, i + 1);
        return Err(MalformedRule);
      }
      d := Put(d, rule.value.0, rule.value.1);
      i := i + 1;
    }
    assert rules[..i] == rules;
    return Ok(d);
  }

  /** One more line extends the prefix by one `AddRule` step. */
  lemma CollectStep(rules: seq<Result<(string, string)>>, i: nat)
    requires i < |rules|
    ensures Collect(rules[..i + 1]) == AddRule(Collect(rules[..i]), rules[i])
  {
    assert rules[..i + 1][..i] == rules[..i];
  }

  /** Once a prefix has failed, the whole file fails with `MalformedRule`. */
  lemma {:induction false} CollectAbort(rules: seq<Result<(string, string)>>, n: nat)
    requires n <= |rules| && Collect(rules[..n]).Err?
    ensures Collect(rules) == Err(MalformedRule)
    decreases |rules| - n
  {
    if n < |rules| {
      assert rules[..n + 1][..n] == rules[..n];
      CollectAbort(rules, n + 1);
    } else {
      assert rules[..n] == rules;
      CollectError(rules);
    }
  }

  lemma {:induction false} CollectError(rules: seq<Result<(string, string)>>)
    requires Collect(rules).Err?
    ensures Collect(rules) == Err(MalformedRule)
    decreases |rules|
  {
    var init := rules[..|rules| - 1];
    if Collect(init).Err? {
      CollectError(init);
    }
  }

  /** The only error parsing reports is `MalformedRule`. */
  lemma ParseSubsError(lines: seq<string>)
    ensures ParseSubs(lines).Err? ==> ParseSubs(lines) == Err(MalformedRule)
  {
    if ParseSubs(lines).Err? {
      CollectError(Rules(lines));
    }
  }

  lemma CollectOnlyIfAllOk(rules: seq<Result<(string, string)>>)
    requires Collect(rules).Ok?
    ensures forall i :: 0 <= i < |rules| ==> rules[i].Ok?
  {
    forall i | 0 <= i < |rules| ensures rules[i].Ok? {
      CollectOkAt(rules, i);
    }
  }

  lemma {:induction false} CollectOkAt(rules: seq<Result<(string, string)>>, i: nat)
    requires Collect(rules).Ok? && i < |rules|
    ensures rules[i].Ok?
    decreases |rules|
  {
    var init := rules[..|rules| - 1];
    if i < |init| {
      CollectOkAt(init, i);
      assert init[i] == rules[i];
    }
  }

  lemma {:induction false} CollectIfAllOk(rules: seq<Result<(string, string)>>)
    requires forall i :: 0 <= i < |rules| ==> rules[i].Ok?
    ensures Collect(rules).Ok?
    decreases |rules|
  {
    if rules != [] {
      var init := rules[..|rules| - 1];
      assert forall i :: 0 <= i < |init| ==> init[i] == rules[i];
      CollectIfAllOk(init);
    }
  }

  /** The file parses exactly when every one of its lines does. */
  lemma ParseSubsOk(lines: seq<string>)
    ensures ParseSubs(lines).Ok? <==> forall i :: 0 <= i < |lines| ==> ParseRule(lines[i]).Ok?
  {
    var rules := Rules(lines);
    if Collect(rules).Ok? {
      CollectOnlyIfAllOk(rules);
    }
    if forall i :: 0 <= i < |lines| ==> ParseRule(lines[i]).Ok? {
      CollectIfAllOk(rules);
    }
  }

  /** The keys named by parsed lines. */
  function RuleKeys(rules: seq<Result<(string, string)>>): set<string>
  {
    set i | 0 <= i < |rules| && rules[i].Ok? :: rules[i].value.0
  }

  lemma RuleKeysSnoc(rules: seq<Result<(string, string)>>)
    requires rules != [] && rules[|rules| - 1].Ok?
    ensures RuleKeys(rules) == RuleKeys(rules[..|rules| - 1]) + {rules[|rules| - 1].value.0}
  {
    var init := rules[..|rules| - 1];
    assert forall i :: 0 <= i < |init| ==> init[i] == rules[i];
    forall x | x in RuleKeys(rules) ensures x in RuleKeys(init) + {rules[|rules| - 1].value.0} {
      var i :| 0 <= i < |rules| && rules[i].Ok? && rules[i].value.0 == x;
      if i < |init| {
        assert init[i].value.0 == x;
      }
    }
  }

  lemma {:induction false} CollectKeys(rules: seq<Result<(string, string)>>)
    requires Collect(rules).Ok?
    ensures DistinctKeys(Collect(rules).value)
    ensures Keys(Collect(rules).value) == RuleKeys(rules)
    decreases |rules|
  {
    if rules != [] {
      var init := rules[..|rules| - 1];
      CollectKeys(init);
      RuleKeysSnoc(rules);
      var kv := rules[|rules| - 1].value;
      PutSpec(Collect(init).value, kv.0, kv.1);
    }
  }

  /** A parsed table is a proper dict whose keys are exactly the left-hand
      sides of the lines. */
  lemma ParseSubsKeys(lines: seq<string>)
    requires ParseSubs(lines).Ok?
    ensures DistinctKeys(ParseSubs(lines).value)
    ensures Keys(ParseSubs(lines).value) ==
            set i | 0 <= i < |lines| && ParseRule(lines[i]).Ok? :: ParseRule(lines[i]).value.0
  {
    var rules := Rules(lines);
    CollectKeys(rules);
    assert RuleKeys(rules) ==
           set i | 0 <= i < |lines| && ParseRule(lines[i]).Ok? :: ParseRule(lines[i]).value.0;
  }

  lemma {:induction false} CollectLastWins(rules: seq<Result<(string, string)>>, i: nat)
    requires Collect(rules).Ok?
    requires i < |rules| && rules[i].Ok?
    requires forall j :: i < j < |rules| && rules[j].Ok? ==> rules[j].value.0 != rules[i].value.0
    ensures rules[i].value.0 in ToMap(Collect(rules).value)
    ensures ToMap(Collect(rules).value)[rules[i].value.0] == rules[i].value.1
    decreases |rules|
  {
    var init := rules[..|rules| - 1];
    var last := |rules| - 1;
    CollectKeys(init);
    var kv := rules[last].value;
    PutToMap(Collect(init).value, kv.0, kv.1);
    if i < last {
      assert init[i] == rules[i];
      assert forall j :: i < j < |init| ==> init[j] == rules[j];
      CollectLastWins(init, i);
    }
  }

  /** A later line for the same key overwrites the earlier value: the value
      of a key is the one on the last line that names it. */
  lemma ParseSubsLastWins(lines: seq<string>, i: nat)
    requires ParseSubs(lines).Ok?
    requires i < |lines| && ParseRule(lines[i]).Ok?
    requires forall j :: i < j < |lines| && ParseRule(lines[j]).Ok? ==>
               ParseRule(lines[j]).value.0 != ParseRule(lines[i]).value.0
    ensures var (k, v) := ParseRule(lines[i]).value;
            k in ToMap(ParseSubs(lines).value) && ToMap(ParseSubs(lines).value)[k] == v
  {
    CollectLastWins(Rules(lines), i);
  }

  /** Line `i` parses and names key `k`. */
  predicate Names(rules: seq<Result<(string, string)>>, i: int, k: string)
  {
    0 <= i < |rules| && rules[i].Ok? && rules[i].value.0 == k
  }

  /** Items are in order of first appearance: before any line naming the key
      of a later item, some line names the key of an earlier item. */
  lemma {:induction false} CollectOrder(rules: seq<Result<(string, string)>>, a: nat, b: nat, j: nat)
    requires Collect(rules).Ok? && a < b < |Collect(rules).value|
    requires Names(rules, j, Collect(rules).value[b].0)
    ensures exists i :: i < j && Names(rules, i, Collect(rules).value[a].0)
    decreases |rules|
  {
    var init := rules[..|rules| - 1];
    var t0 := Collect(init).value;
    var t := Collect(rules).value;
    var kv := rules[|rules| - 1].value;
    assert t == Put(t0, kv.0, kv.1);
    PutSpec(t0, kv.0, kv.1);
    CollectKeys(init);
    assert forall x :: 0 <= x < |init| ==> init[x] == rules[x];
    if b < |t0| {
      assert t[a].0 == t0[a].0 && t[b].0 == t0[b].0;
      var j' := j;
      if j == |rules| - 1 {
        assert t0[b].0 in RuleKeys(init);
        j' :| 0 <= j' < |init| && init[j'].Ok? && init[j'].value.0 == t0[b].0;
      }
      assert Names(init, j', t0[b].0);
      CollectOrder(init, a, b, j');
      var i :| i < j' && Names(init, i, t0[a].0);
      assert Names(rules, i, t[a].0);
    } else {
      assert t[a] == t0[a] && t[b].0 == kv.0 && kv.0 !in RuleKeys(init);
      assert j == |rules| - 1;
      assert t0[a].0 in RuleKeys(init);
      var i :| 0 <= i < |init| && init[i].Ok? && init[i].value.0 == t0[a].0;
      assert Names(rules, i, t[a].0);
    }
  }

  /** The items of a parsed table follow the lines that first name their
      keys: before any line naming the key of item `b`, a line names the key
      of every earlier item `a`. */
  lemma ParseSubsOrder(lines: seq<string>, a: nat, b: nat, j: nat)
    requires ParseSubs(lines).Ok? && a < b < |ParseSubs(lines).value|
    requires j < |lines| && ParseRule(lines[j]).Ok? &&
             ParseRule(lines[j]).value.0 == ParseSubs(lines).value[b].0
    ensures exists i :: 0 <= i < j && ParseRule(lines[i]).Ok? &&
              ParseRule(lines[i]).value.0 == ParseSubs(lines).value[a].0
  {
    var rules := Rules(lines);
    assert Names(rules, j, Collect(rules).value[b].0);
    CollectOrder(rules, a, b, j);
    var i :| i < j && Names(rules, i, Collect(rules).value[a].0);
    assert ParseRule(lines[i]) == rules[i];
  }
}

/** The candidate-generation steps of the `UNC` class: reading a name record,
    the nine base conventions, numeric suffixes and character substitutions. */
module Options {
  import opened PyStr
  import opened Results
  import opened Substitutions

  /** One input record: first name and second name. */
  datatype Record = Record(first: string, second: string)

  // ---------------------------------------------------------------------------
  // A record: the stripped line split on one space into two names

  /** The record on one input line. The stripped line must split on single
      spaces into exactly two pieces; both are then non-empty, so the `[0]`
      accesses of the base conventions are in bounds. */
  function ParseRecord(user: string): (r: Result<Record>)
    ensures r.Ok? <==> Count(Strip(user), ' ') == 1
    ensures r.Err? ==> r.error == MalformedRecord
    ensures r.Ok? ==> Strip(user) == r.value.first + " " + r.value.second
    ensures r.Ok? ==> |r.value.first| > 0 && |r.value.second| > 0
    ensures r.Ok? ==> ' ' !in r.value.first && ' ' !in r.value.second
  {
    var t := Strip(user);
    var parts := Split(t, ' ');
    SplitCount(t, ' ');
    if |parts| == 2 then
      SplitTwo(t, ' ');
      assert t[|parts[0]|] == ' ' && IsSpace(' ');
      Ok(Record(parts[0], parts[1]))
    else
      Err(MalformedRecord)
  }

  /** The lower-cased line parses to the lower-cased record, so the pass over
      the lower-cased line in case-sensitive mode cannot fail once `user` parsed. */
  lemma ParseRecordLower(user: string)
    requires ParseRecord(user).Ok?
    ensures ParseRecord(Lower(user)) ==
            Ok(Record(Lower(ParseRecord(user).value.first), Lower(ParseRecord(user).value.second)))
  {
    StripLower(user);
    SplitLower(Strip(user), ' ');
    SplitCount(Strip(user), ' ');
  }

  // ---------------------------------------------------------------------------
  // applyOptionRules

  /** The nine base conventions, in the order `applyOptionRules` appends them. */
  function BaseOptions(first: string, second: string): seq<string>
    requires |first| > 0 && |second| > 0
  {
    [first, second, first + second, first + "." + second,
     [first[0]] + second, [first[0]] + "." + second,
     second + first, second + [first[0]], [second[0]] + first]
  }

  /** `applyOptionRules(firstname, secondname)`, appending one convention at
      a time. */
  method ApplyOptionRules(first: string, second: string) returns (options: seq<string>)
    requires |first| > 0 && |second| > 0
    ensures |options| == 9
    ensures options[0] == first && options[1] == second
    ensures options[2] == first + second && options[3] == first + "." + second
    ensures options[4] == [first[0]] + second && options[5] == [first[0]] + "." + second
    ensures options[6] == second + first && options[7] == second + [first[0]]
    ensures options[8] == [second[0]] + first
    ensures options == BaseOptions(first, second)
  {
    options := [];
    options := options + [first];
    options := options + [second];
    options := options + [first + second];
    options := options + [first + "." + second];
    options := options + [[first[0]] + second];
    options := options + [[first[0]] + "." + second];
    options := options + [second + first];
    options := options + [second + [first[0]]];
    options := options + [[second[0]] + first];
  }

  // ---------------------------------------------------------------------------
  // addNumbersToUsername / addNumbersToOptions

  /** What `addNumbersToUsername(mrange, username)` returns. */
  function NumberedUsername(mrange: int, username: string): seq<string>
  {
    if mrange > 0 then seq(mrange + 1, i requires 0 <= i <= mrange => username + NatToString(i))
    else []
  }

  /** `addNumbersToUsername`: for a positive bound `m` the strings
      `username + str(i)` for `i` in `0..m`, and nothing for a bound of zero
      or less. */
  method AddNumbersToUsername(mrange: int, username: string) returns (numbered: seq<string>)
    ensures mrange <= 0 ==> numbered == []
    ensures mrange > 0 ==> |numbered| == mrange + 1
    ensures mrange > 0 ==> forall i :: 0 <= i <= mrange ==> numbered[i] == username + NatToString(i)
    ensures numbered == NumberedUsername(mrange, username)
  {
    numbered := [];
    if mrange > 0 {
      for i := 0 to mrange + 1
        invariant |numbered| == i
        invariant forall j :: 0 <= j < i ==> numbered[j] == username + NatToString(j)
      {
        numbered := numbered + [username + NatToString(i)];
      }
    }
  }

  /** The numbered variants of one username are pairwise different and all
      start with the username. */
  lemma NumberedUsernameDistinct(mrange: int, username: string, i: nat, j: nat)
    requires mrange > 0 && i <= mrange && j <= mrange && i != j
    ensures NumberedUsername(mrange, username)[i] != NumberedUsername(mrange, username)[j]
    ensures username <= NumberedUsername(mrange, username)[i]
  {
    var n := NumberedUsername(mrange, username);
    if n[i] == n[j] {
      assert n[i][|username|..] == NatToString(i);
      assert n[j][|username|..] == NatToString(j);
      NatToStringInjective(i, j);
    }
  }

  /** What `addNumbersToOptions(options, mrange)` returns: the numbered
      block of each option, in the order of the options. */
  function NumberedOptions(options: seq<string>, mrange: int): seq<string>
    decreases |options|
  {
    if options == [] then []
    else NumberedOptions(options[..|options| - 1], mrange) + NumberedUsername(mrange, options[|options| - 1])
  }

  /** `addNumbersToOptions`, growing the result one option at a time. */
  method AddNumbersToOptions(options: seq<string>, mrange: int) returns (withNumbers: seq<string>)
    ensures withNumbers == NumberedOptions(options, mrange)
  {
    withNumbers := [];
    for i := 0 to |options|
      invariant withNumbers == NumberedOptions(options[..i], mrange)
    {
      var numbered := AddNumbersToUsername(mrange, options[i]);
      assert options[..i + 1][..i] == options[..i];
      withNumbers := withNumbers + numbered;
    }
    assert options[..|options|] == options;
  }

  /** `|options| * (m + 1)` strings for a positive bound, none otherwise. */
  lemma {:induction false} NumberedOptionsLength(options: seq<string>, mrange: int)
    ensures |NumberedOptions(options, mrange)| == if mrange > 0 then |options| * (mrange + 1) else 0
    decreases |options|
  {
    if options != [] {
      var init := options[..|options| - 1];
      NumberedOptionsLength(init, mrange);
      NumberedUsernameLength(mrange, options[|options| - 1]);
      if mrange > 0 {
        MulSucc(|init|, mrange + 1);
      }
    }
  }

  lemma NumberedUsernameLength(mrange: int, username: string)
    ensures |NumberedUsername(mrange, username)| == if mrange > 0 then mrange + 1 else 0
  {
  }

  lemma MulSucc(a: nat, w: nat)
    ensures (a + 1) * w == a * w + w
  {
  }

  /** Entry `i * (m + 1) + j` is option `i` with the suffix `str(j)`: the
      blocks come in input order, each in increasing suffix order, and every
      entry starts with the option it came from. */
  lemma {:induction false} NumberedOptionsAt(options: seq<string>, mrange: int, i: nat, j: nat)
    requires mrange > 0 && i < |options| && j <= mrange
    ensures i * (mrange + 1) + j < |NumberedOptions(options, mrange)|
    ensures NumberedOptions(options, mrange)[i * (mrange + 1) + j] == options[i] + NatToString(j)
    ensures options[i] <= NumberedOptions(options, mrange)[i * (mrange + 1) + j]
    decreases |options|
  {
    var init := options[..|options| - 1];
    var w := mrange + 1;
    NumberedOptionsLength(init, mrange);
    NumberedOptionsLength(options, mrange);
    IndexInBlock(i, |options|, w, j);
    if i < |init| {
      IndexInBlock(i, |init|, w, j);
      NumberedOptionsAt(init, mrange, i, j);
      assert init[i] == options[i];
    }
  }

  // ---------------------------------------------------------------------------
  // Index arithmetic for results made of equal-sized blocks

  lemma MulLe(a: nat, b: nat, w: nat)
    requires a <= b
    ensures a * w <= b * w
  {
  }

  /** Offset `j` of block `i` lies inside block `i`, before block `i + 1`. */
  lemma IndexInBlock(i: nat, n: nat, w: nat, j: nat)
    requires i < n && j < w
    ensures i * w + j < n * w
    ensures i == n - 1 ==> i * w == n * w - w
  {
    MulSucc(i, w);
    MulLe(i + 1, n, w);
    if i == n - 1 {
      MulSucc(n - 1, w);
    }
  }

  // ---------------------------------------------------------------------------
  // specialCharsSubstitute

  /** One username with each table entry applied in turn, in table order. */
  function SubstBlock(user: string, table: Table): seq<string>
  {
    seq(|table|, j requires 0 <= j < |table| => Replace(user, table[j].0, table[j].1))
  }

  /** What `specialCharsSubstitute(userlist)` returns: the block of each
      username, in the order of the list. */
  function Substituted(users: seq<string>, table: Table): seq<string>
    decreases |users|
  {
    if users == [] then []
    else Substituted(users[..|users| - 1], table) + SubstBlock(users[|users| - 1], table)
  }

  /** `specialCharsSubstitute`: a loop over the usernames and, inside it, a
      loop over the items of the table. `str.replace` never raises, so the
      `except` branch of the source is never taken and nothing is dropped. */
  method SpecialCharsSubstitute(users: seq<string>, table: Table) returns (newlist: seq<string>)
    ensures newlist == Substituted(users, table)
  {
    newlist := [];
    for i := 0 to |users|
      invariant newlist == Substituted(users[..i], table)
    {
      var user := users[i];
      ghost var before := newlist;
      for j := 0 to |table|
        invariant newlist == before + SubstBlock(user, table[..j])
      {
        var (key, sub) := table[j];
        assert SubstBlock(user, table[..j + 1]) == SubstBlock(user, table[..j]) + [Replace(user, key, sub)];
        newlist := newlist + [Replace(user, key, sub)];
      }
      assert table[..|table|] == table;
      assert users[..i + 1][..i] == users[..i];
    }
    assert users[..|users|] == users;
  }

  /** Exactly `|users| * |table|` strings: nothing is filtered. */
  lemma {:induction false} SubstitutedLength(users: seq<string>, table: Table)
    ensures |Substituted(users, table)| == |users| * |table|
    decreases |users|
  {
    if users != [] {
      var init := users[..|users| - 1];
      SubstitutedLength(init, table);
      MulSucc(|init|, |table|);
    }
  }

  /** Entry `i * |table| + j` is username `i` with entry `j` applied: the
      order is username-major, then table order. */
  lemma {:induction false} SubstitutedAt(users: seq<string>, table: Table, i: nat, j: nat)
    requires i < |users| && j < |table|
    ensures i * |table| + j < |Substituted(users, table)|
    ensures Substituted(users, table)[i * |table| + j] == Replace(users[i], table[j].0, table[j].1)
    decreases |users|
  {
    var init := users[..|users| - 1];
    var w := |table|;
    SubstitutedLength(init, table);
    SubstitutedLength(users, table);
    IndexInBlock(i, |users|, w, j);
    if i < |init| {
      IndexInBlock(i, |init|, w, j);
      SubstitutedAt(init, table, i, j);
      assert init[i] == users[i];
    }
  }

  /** An entry whose key does not occur in the username gives an unchanged
      copy of it. */
  lemma SubstitutedCopy(users: seq<string>, table: Table, i: nat, j: nat)
    requires i < |users| && j < |table|
    requires |table[j].0| > 0 && !OccursIn(table[j].0, users[i])
    ensures i * |table| + j < |Substituted(users, table)|
    ensures Substituted(users, table)[i * |table| + j] == users[i]
  {
    SubstitutedAt(users, table, i, j);
    ReplaceAbsent(users[i], table[j].0, table[j].1);
  }
}

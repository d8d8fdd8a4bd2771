/**
  The string helpers shared by the JDBC job store's driver delegates
  (class `Util` of package `org.quartz.impl.jdbcjobstore`):

  - table-prefix substitution in stored SQL text (`rtp`), and
  - the string keys built from a (name, group) pair for jobs and triggers
    (`getJobNameKey`, `getTriggerNameKey`).

  Strings are `seq<char>`. Every member is a pure function of its arguments.
 */
module Util {

  datatype Option<+T> = None | Some(value: T)

  // ---------------------------------------------------------------------------
  // Job and trigger keys
  // ---------------------------------------------------------------------------

  /** The fixed token placed between the group and the name of a key. */
  const KeySeparator: string := "_$x$x$_"

  /**
    The key of job `jobName` in group `groupName`: the group, the separator,
    then the name. The `intern()` of the source returns an equal string, so by
    value the key is the concatenation itself.
   */
  function JobNameKey(jobName: string, groupName: string): (key: string)
    ensures |key| == |groupName| + |KeySeparator| + |jobName|
    ensures key[..|groupName|] == groupName
    ensures key[|groupName|..|groupName| + |KeySeparator|] == KeySeparator
    ensures key[|groupName| + |KeySeparator|..] == jobName
  {
    groupName + KeySeparator + jobName
  }

  /**
    The key of trigger `triggerName` in group `groupName`. It is built exactly
    like a job key: nothing in it tells a trigger key from a job key.
   */
  function TriggerNameKey(triggerName: string, groupName: string): (key: string)
    ensures key == JobNameKey(triggerName, groupName)
    ensures |key| == |groupName| + |KeySeparator| + |triggerName|
    ensures key[..|groupName|] == groupName && key[|groupName| + |KeySeparator|..] == triggerName
  {
    groupName + KeySeparator + triggerName
  }

  /** The position of the first `c` in `s`, if there is one. */
  function FirstIndexOf(s: string, c: char): (r: Option<nat>)
    ensures r.None? <==> c !in s
    ensures r.Some? ==> r.value < |s| && s[r.value] == c && c !in s[..r.value]
  {
    if s == [] then None
    else if s[0] == c then Some(0)
    else
      match FirstIndexOf(s[1..], c)
      case None => None
      case Some(i) =>
        assert s[..i + 1] == [s[0]] + s[1..][..i];
        Some(i + 1)
  }

  /**
    Reads a key back as (name, group), taking the group to end just before
    the first '$' of the key. Succeeds only on keys whose group has no '$'.
   */
  function SplitKey(key: string): (r: Option<(string, string)>)
    ensures r.Some? ==> '$' !in r.value.1 && JobNameKey(r.value.0, r.value.1) == key
  {
    match FirstIndexOf(key, '$')
    case None => None
    case Some(i) =>
      if 1 <= i && i + |KeySeparator| - 1 <= |key| && key[i - 1..i + |KeySeparator| - 1] == KeySeparator then
        assert key[..i - 1] == key[..i][..i - 1];
        assert key == key[..i - 1] + key[i - 1..i + |KeySeparator| - 1] + key[i + |KeySeparator| - 1..];
        Some((key[i + |KeySeparator| - 1..], key[..i - 1]))
      else
        None
  }

  /** When the group has no '$', the first '$' of a key is the second character of the separator. */
  lemma FirstDollarFollowsGroup(jobName: string, groupName: string)
    requires '$' !in groupName
    ensures FirstIndexOf(JobNameKey(jobName, groupName), '$') == Some(|groupName| + 1)
  {
    var key := JobNameKey(jobName, groupName);
    assert key[|groupName| + 1] == '$';
  }

  /** `SplitKey` inverts key construction for every group without '$'. */
  lemma SplitKeyRoundTrip(jobName: string, groupName: string)
    requires '$' !in groupName
    ensures SplitKey(JobNameKey(jobName, groupName)) == Some((jobName, groupName))
  {
    FirstDollarFollowsGroup(jobName, groupName);
  }

  /**
    The uniqueness the keys are documented to have: over groups without '$',
    two keys are equal exactly when both names and both groups are.
   */
  lemma KeyUniqueWhenGroupsHaveNoDollar(name1: string, group1: string, name2: string, group2: string)
    requires '$' !in group1 && '$' !in group2
    ensures JobNameKey(name1, group1) == JobNameKey(name2, group2) <==> name1 == name2 && group1 == group2
  {
    SplitKeyRoundTrip(name1, group1);
    SplitKeyRoundTrip(name2, group2);
  }

  /**
    Without that condition keys are not unique: a job named "b_$x$x$_c" in
    group "a" and a job named "c" in group "a_$x$x$_b" get the same key.
   */
  lemma KeyCollision()
    ensures JobNameKey("b_$x$x$_c", "a") == JobNameKey("c", "a_$x$x$_b")
    ensures ("b_$x$x$_c", "a") != ("c", "a_$x$x$_b")
  {
  }

  /**
    Names need not contain the separator for a collision: neither
    "$x$x$_c" nor "a_$x$x$" holds "_$x$x$_", yet both pairs give the key
    "a_$x$x$_$x$x$_c", because the separator begins and ends with '_'.
   */
  lemma KeyCollisionThroughOverlap()
    ensures JobNameKey("$x$x$_c", "a") == JobNameKey("c", "a_$x$x$")
    ensures ("$x$x$_c", "a") != ("c", "a_$x$x$")
  {
  }

  /**
    The two ways a pair with the shorter group `group1` can share its key
    with a pair whose group `group2` is longer: `group2` is `group1`
    followed either by the separator without its last '_' (and `name1` is
    the separator without its first '_', then `name2`), or by the whole
    separator and some `v` (and `name1` is `v`, the separator, then `name2`).
   */
  predicate GroupExtendsOver(name1: string, group1: string, name2: string, group2: string) {
    && |group1| < |group2|
    && group2[..|group1|] == group1
    && var w := group2[|group1|..];
       || (w == KeySeparator[..|KeySeparator| - 1] && name1 == KeySeparator[1..] + name2)
       || (|w| >= |KeySeparator| && w[..|KeySeparator|] == KeySeparator
           && name1 == w[|KeySeparator|..] + KeySeparator + name2)
  }

  /** Each shape of `GroupExtendsOver` does produce equal keys. */
  lemma ExtensionCollides(name1: string, group1: string, name2: string, group2: string)
    requires GroupExtendsOver(name1, group1, name2, group2)
    ensures JobNameKey(name1, group1) == JobNameKey(name2, group2)
  {
    var w := group2[|group1|..];
    assert group2 == group1 + w;
    if w == KeySeparator[..|KeySeparator| - 1] {
      assert w + KeySeparator == KeySeparator + KeySeparator[1..];
      assert group2 + KeySeparator + name2 == group1 + (w + KeySeparator) + name2;
    } else {
      var v := w[|KeySeparator|..];
      assert w == KeySeparator + v;
      assert group2 + KeySeparator + name2 == group1 + KeySeparator + (v + KeySeparator + name2);
    }
  }

  /**
    The separator overlaps itself only on its first and last '_': if it
    starts again `|w|` characters in, then `w` is the separator without its
    last character, or `w` begins with the whole separator.
   */
  lemma SeparatorOverlap(w: string, name1: string, name2: string)
    requires |w| > 0
    requires KeySeparator + name1 == w + KeySeparator + name2
    ensures || (w == KeySeparator[..|KeySeparator| - 1] && name1 == KeySeparator[1..] + name2)
            || (|w| >= |KeySeparator| && w[..|KeySeparator|] == KeySeparator
                && name1 == w[|KeySeparator|..] + KeySeparator + name2)
  {
    var t := KeySeparator + name1;
    var d := |w|;
    if d < |KeySeparator| {
      assert t[d] == KeySeparator[0];
      assert d == |KeySeparator| - 1;
      assert w == t[..d];
      assert name1 == t[|KeySeparator|..];
      assert (w + KeySeparator + name2)[|KeySeparator|..] == KeySeparator[1..] + name2;
    } else {
      assert w[..|KeySeparator|] == t[..|KeySeparator|];
      assert name1 == t[|KeySeparator|..];
      assert t == w[..|KeySeparator|] + (w[|KeySeparator|..] + KeySeparator + name2);
    }
  }

  /** Equal keys with groups of different lengths always have one of the shapes of `GroupExtendsOver`. */
  lemma CollisionIsExtension(name1: string, group1: string, name2: string, group2: string)
    requires |group1| < |group2|
    requires JobNameKey(name1, group1) == JobNameKey(name2, group2)
    ensures GroupExtendsOver(name1, group1, name2, group2)
  {
    var key := group2 + (KeySeparator + name2);
    var w := group2[|group1|..];
    assert group2[..|group1|] == group1 by {
      assert key == group1 + (KeySeparator + name1);
      assert key[..|group1|] == group1;
      assert key[..|group1|] == group2[..|group1|];
    }
    var t := key[|group1|..];
    assert t == KeySeparator + name1 by {
      assert key == group1 + (KeySeparator + name1);
    }
    assert t == w + (KeySeparator + name2) by {
      assert key == (group1 + w) + (KeySeparator + name2);
    }
    SeparatorOverlap(w, name1, name2);
  }

  /**
    Exactly when two keys are equal: the pairs are equal, or one group
    extends the other in one of the two shapes of `GroupExtendsOver`.
   */
  lemma KeyEqualityExact(name1: string, group1: string, name2: string, group2: string)
    ensures JobNameKey(name1, group1) == JobNameKey(name2, group2) <==>
      || (name1 == name2 && group1 == group2)
      || GroupExtendsOver(name1, group1, name2, group2)
      || GroupExtendsOver(name2, group2, name1, group1)
  {
    if JobNameKey(name1, group1) == JobNameKey(name2, group2) {
      if |group1| < |group2| {
        CollisionIsExtension(name1, group1, name2, group2);
      } else if |group2| < |group1| {
        CollisionIsExtension(name2, group2, name1, group1);
      }
    }
    if GroupExtendsOver(name1, group1, name2, group2) {
      ExtensionCollides(name1, group1, name2, group2);
    }
    if GroupExtendsOver(name2, group2, name1, group1) {
      ExtensionCollides(name2, group2, name1, group1);
    }
  }

  /** A job key and a trigger key built from the same pair are the same string. */
  lemma JobAndTriggerKeysShareOneSpace(name: string, groupName: string)
    ensures TriggerNameKey(name, groupName) == JobNameKey(name, groupName)
    ensures forall n, g | '$' !in g && '$' !in groupName ::
      TriggerNameKey(n, g) == JobNameKey(name, groupName) <==> n == name && g == groupName
  {
    forall n, g | '$' !in g && '$' !in groupName
      ensures TriggerNameKey(n, g) == JobNameKey(name, groupName) <==> n == name && g == groupName
    {
      KeyUniqueWhenGroupsHaveNoDollar(n, g, name, groupName);
    }
  }

  // ---------------------------------------------------------------------------
  // Collision-free keys
  // ---------------------------------------------------------------------------

  /** Doubles every '$' of a group name. */
  function EscapeDollars(groupName: string): (e: string)
    ensures '$' !in groupName ==> e == groupName
    ensures |e| >= |groupName|
  {
    if groupName == [] then []
    else (if groupName[0] == '$' then "$$" else [groupName[0]]) + EscapeDollars(groupName[1..])
  }

  /**
    A key that is unique for every (name, group): the group's '$' characters
    are doubled before the separator is appended. For groups without '$' it
    is the same string as `JobNameKey`, so keys already in use keep their value.
   */
  function EscapedJobNameKey(jobName: string, groupName: string): (key: string)
    ensures '$' !in groupName ==> key == JobNameKey(jobName, groupName)
    ensures |key| >= |groupName| + |KeySeparator| + |jobName|
    ensures key[|key| - |jobName|..] == jobName
  {
    EscapeDollars(groupName) + KeySeparator + jobName
  }

  predicate StartsWithSeparator(s: string) {
    |s| >= |KeySeparator| && s[..|KeySeparator|] == KeySeparator
  }

  /**
    Reads an escaped group off the front of `s`, up to the first separator
    that is not inside a doubled '$'; returns the group and what follows the
    separator.
   */
  function ParseEscapedGroup(s: string): (r: Option<(string, string)>)
    decreases |s|
  {
    if StartsWithSeparator(s) then Some(([], s[|KeySeparator|..]))
    else if |s| >= 2 && s[0] == '$' && s[1] == '$' then PrependToGroup('$', ParseEscapedGroup(s[2..]))
    else if s == [] || s[0] == '$' then None
    else PrependToGroup(s[0], ParseEscapedGroup(s[1..]))
  }

  function PrependToGroup(c: char, r: Option<(string, string)>): Option<(string, string)> {
    match r
    case None => None
    case Some(p) => Some(([c] + p.0, p.1))
  }

  /** A doubled '$' is read back as one '$'. */
  lemma ParseDoubledDollar(t: string)
    ensures ParseEscapedGroup("$$" + t) == PrependToGroup('$', ParseEscapedGroup(t))
  {
    var s := "$$" + t;
    assert s[0] == '$' && s[1] == '$';
    assert s[2..] == t;
  }

  /** A character other than '$' that does not start a separator is copied into the group. */
  lemma ParsePlainChar(c: char, t: string)
    requires c != '$'
    requires !StartsWithSeparator([c] + t)
    ensures ParseEscapedGroup([c] + t) == PrependToGroup(c, ParseEscapedGroup(t))
  {
  }

  /** An escaped group followed by the separator never starts with "$x". */
  lemma EscapedHead(jobName: string, groupName: string)
    ensures var t := EscapedJobNameKey(jobName, groupName);
      |t| >= 2 && !(t[0] == '$' && t[1] == 'x')
  {
  }

  /** An escaped key is the escaped first character of the group followed by the key of the rest. */
  lemma EscapedKeyCons(jobName: string, groupName: string)
    requires groupName != []
    ensures EscapedJobNameKey(jobName, groupName) ==
      (if groupName[0] == '$' then "$$" else [groupName[0]]) + EscapedJobNameKey(jobName, groupName[1..])
  {
  }

  /** A character other than '$' in front of an escaped key is copied into the group. */
  lemma PlainCharBeforeEscapedKey(c: char, jobName: string, groupName: string)
    requires c != '$'
    ensures var tail := EscapedJobNameKey(jobName, groupName);
      ParseEscapedGroup([c] + tail) == PrependToGroup(c, ParseEscapedGroup(tail))
  {
    var tail := EscapedJobNameKey(jobName, groupName);
    EscapedHead(jobName, groupName);
    var s := [c] + tail;
    assert s[1] == tail[0] && s[2] == tail[1];
    assert KeySeparator[1] == '$' && KeySeparator[2] == 'x';
    assert !StartsWithSeparator(s);
    ParsePlainChar(c, tail);
  }

  /** `ParseEscapedGroup` reads the group and the name back from an escaped key. */
  lemma {:induction false} ParseEscapedGroupInverts(jobName: string, groupName: string)
    ensures ParseEscapedGroup(EscapedJobNameKey(jobName, groupName)) == Some((groupName, jobName))
    decreases |groupName|
  {
    var key := EscapedJobNameKey(jobName, groupName);
    if groupName == [] {
      assert key == KeySeparator + jobName;
      assert key[..|KeySeparator|] == KeySeparator;
      assert key[|KeySeparator|..] == jobName;
    } else {
      var c, rest := groupName[0], groupName[1..];
      var tail := EscapedJobNameKey(jobName, rest);
      ParseEscapedGroupInverts(jobName, rest);
      EscapedKeyCons(jobName, groupName);
      if c == '$' {
        assert key == "$$" + tail;
        ParseDoubledDollar(tail);
      } else {
        assert key == [c] + tail;
        PlainCharBeforeEscapedKey(c, jobName, rest);
      }
      assert ParseEscapedGroup(key) == PrependToGroup(c, Some((rest, jobName)));
      assert [c] + rest == groupName;
    }
  }

  /** Reads an escaped key back as (name, group), the order `SplitKey` uses. */
  function SplitEscapedKey(key: string): (r: Option<(string, string)>)
    ensures r.Some? ==> EscapedJobNameKey(r.value.0, r.value.1) == key
  {
    match ParseEscapedGroup(key)
    case None => None
    case Some(p) =>
      ParseEscapedGroupSound(key);
      Some((p.1, p.0))
  }

  /** Escaping a group that starts with `c` escapes `c`, then the rest. */
  lemma EscapeCons(c: char, groupName: string)
    ensures EscapeDollars([c] + groupName) == (if c == '$' then "$$" else [c]) + EscapeDollars(groupName)
  {
    assert ([c] + groupName)[1..] == groupName;
  }

  /** Prepending one decoded character keeps a decoding sound. */
  lemma PrependSound(c: char, rest: string, r: Option<(string, string)>)
    requires r.Some? && EscapeDollars(r.value.0) + KeySeparator + r.value.1 == rest
    ensures var r' := PrependToGroup(c, r);
      r'.Some? && EscapeDollars(r'.value.0) + KeySeparator + r'.value.1
        == (if c == '$' then "$$" else [c]) + rest
  {
    EscapeCons(c, r.value.0);
  }

  /** Whatever `ParseEscapedGroup` reads is the escaped group, the separator and the rest. */
  lemma {:induction false} ParseEscapedGroupSound(s: string)
    requires ParseEscapedGroup(s).Some?
    ensures EscapeDollars(ParseEscapedGroup(s).value.0) + KeySeparator + ParseEscapedGroup(s).value.1 == s
    decreases |s|
  {
    if StartsWithSeparator(s) {
      assert s == s[..|KeySeparator|] + s[|KeySeparator|..];
    } else if |s| >= 2 && s[0] == '$' && s[1] == '$' {
      ParseEscapedGroupSound(s[2..]);
      PrependSound('$', s[2..], ParseEscapedGroup(s[2..]));
      assert s == "$$" + s[2..];
    } else {
      ParseEscapedGroupSound(s[1..]);
      PrependSound(s[0], s[1..], ParseEscapedGroup(s[1..]));
      assert s == [s[0]] + s[1..];
    }
  }

  /** `SplitEscapedKey` inverts `EscapedJobNameKey` for every name and group. */
  lemma SplitEscapedKeyRoundTrip(jobName: string, groupName: string)
    ensures SplitEscapedKey(EscapedJobNameKey(jobName, groupName)) == Some((jobName, groupName))
  {
    ParseEscapedGroupInverts(jobName, groupName);
  }

  /** Escaped keys are unique for all inputs: equal keys mean equal names and groups. */
  lemma EscapedKeyUnique(name1: string, group1: string, name2: string, group2: string)
    ensures EscapedJobNameKey(name1, group1) == EscapedJobNameKey(name2, group2)
        <==> name1 == name2 && group1 == group2
  {
    SplitEscapedKeyRoundTrip(name1, group1);
    SplitEscapedKeyRoundTrip(name2, group2);
  }

  // ---------------------------------------------------------------------------
  // Table-prefix substitution
  // ---------------------------------------------------------------------------

  /** The placeholder a stored query uses for the table prefix. */
  const Token: string := "{0}"

  predicate StartsWithToken(s: string) {
    |s| >= |Token| && s[..|Token|] == Token
  }

  /** `s` holds the placeholder somewhere. */
  predicate ContainsToken(s: string)
    decreases |s|
  {
    |s| >= |Token| && (StartsWithToken(s) || ContainsToken(s[1..]))
  }

  /**
    One left-to-right pass over `query`: each placeholder met is replaced by
    `prefix` and scanning resumes after it; every other character is copied.
   */
  function Substitute(query: string, prefix: string): string
    decreases |query|
  {
    if query == [] then []
    else if StartsWithToken(query) then prefix + Substitute(query[|Token|..], prefix)
    else [query[0]] + Substitute(query[1..], prefix)
  }

  /**
    The literal parts of `query` between the placeholders found by a
    left-to-right scan (one more part than there are placeholders).
   */
  function Split(query: string): (parts: seq<string>)
    ensures |parts| >= 1
    ensures parts[0] <= query
    decreases |query|
  {
    if query == [] then [[]]
    else if StartsWithToken(query) then [[]] + Split(query[|Token|..])
    else
      var rest := Split(query[1..]);
      [[query[0]] + rest[0]] + rest[1..]
  }

  /** The parts joined with `sep` between each two neighbours. */
  function Join(parts: seq<string>, sep: string): string
    requires |parts| >= 1
    decreases |parts|
  {
    if |parts| == 1 then parts[0] else parts[0] + sep + Join(parts[1..], sep)
  }

  /** Number of placeholders a left-to-right scan finds in `query`. */
  function TokenCount(query: string): nat {
    |Split(query)| - 1
  }

  lemma JoinConsHead(c: char, parts: seq<string>, sep: string)
    requires |parts| >= 1
    ensures Join([[c] + parts[0]] + parts[1..], sep) == [c] + Join(parts, sep)
  {
  }

  /** Joining the parts back with the placeholder gives the query again. */
  lemma {:induction false} SplitJoin(query: string)
    ensures Join(Split(query), Token) == query
    decreases |query|
  {
    if query == [] {
    } else if StartsWithToken(query) {
      SplitJoin(query[|Token|..]);
      var parts := Split(query);
      assert parts[1..] == Split(query[|Token|..]);
      assert query == Token + query[|Token|..];
    } else {
      SplitJoin(query[1..]);
      JoinConsHead(query[0], Split(query[1..]), Token);
      assert query == [query[0]] + query[1..];
    }
  }

  /** No literal part holds a placeholder: the scan finds all of them. */
  lemma {:induction false} SplitPartsTokenFree(query: string)
    ensures forall i | 0 <= i < |Split(query)| :: !ContainsToken(Split(query)[i])
    decreases |query|
  {
    if query == [] {
    } else if StartsWithToken(query) {
      SplitPartsTokenFree(query[|Token|..]);
      var parts := Split(query);
      assert parts[1..] == Split(query[|Token|..]);
      forall i | 1 <= i < |parts| ensures !ContainsToken(parts[i]) {
        assert parts[i] == parts[1..][i - 1];
      }
    } else {
      SplitPartsTokenFree(query[1..]);
      var rest := Split(query[1..]);
      var head := [query[0]] + rest[0];
      assert !StartsWithToken(head) by {
        if |head| >= |Token| {
          assert rest[0][..2] == query[1..][..2];
          assert head[..|Token|] == query[..|Token|];
        }
      }
      assert head[1..] == rest[0];
      var parts := Split(query);
      forall i | 1 <= i < |parts| ensures !ContainsToken(parts[i]) {
        assert parts[i] == rest[i];
      }
    }
  }

  /** The scan equals the reference: the literal parts joined with the prefix. */
  lemma {:induction false} SubstituteIsJoin(query: string, prefix: string)
    ensures Substitute(query, prefix) == Join(Split(query), prefix)
    decreases |query|
  {
    if query == [] {
    } else if StartsWithToken(query) {
      var rest := query[|Token|..];
      SubstituteIsJoin(rest, prefix);
      var parts := Split(query);
      assert parts == [[]] + Split(rest);
      assert parts[1..] == Split(rest);
      assert Substitute(query, prefix) == prefix + Substitute(rest, prefix);
      assert Join(parts, prefix) == [] + prefix + Join(Split(rest), prefix);
    } else {
      SubstituteIsJoin(query[1..], prefix);
      JoinConsHead(query[0], Split(query[1..]), prefix);
      assert Substitute(query, prefix) == [query[0]] + Substitute(query[1..], prefix);
    }
  }

  lemma TokenCountStep(query: string)
    requires query != []
    ensures StartsWithToken(query) ==> TokenCount(query) == TokenCount(query[|Token|..]) + 1
    ensures !StartsWithToken(query) ==> TokenCount(query) == TokenCount(query[1..])
  {
  }

  lemma GrowthStep(n: int, k: int, d: int)
    ensures (n - 3 + k * d) + (d + 3) == n + (k + 1) * d
  {
  }

  /** Each placeholder trades its three characters for the prefix. */
  lemma {:induction false} SubstituteLength(query: string, prefix: string)
    ensures |Substitute(query, prefix)| == |query| + TokenCount(query) * (|prefix| - |Token|)
    decreases |query|
  {
    if query == [] {
    } else {
      TokenCountStep(query);
      if StartsWithToken(query) {
        var rest := query[|Token|..];
        SubstituteLength(rest, prefix);
        GrowthStep(|query|, TokenCount(rest), |prefix| - |Token|);
      } else {
        SubstituteLength(query[1..], prefix);
      }
    }
  }

  /** A query without a placeholder comes back unchanged, whatever the prefix. */
  lemma {:induction false} SubstituteWithoutToken(query: string, prefix: string)
    requires !ContainsToken(query)
    ensures Substitute(query, prefix) == query
    decreases |query|
  {
    if query != [] {
      assert !ContainsToken(query[1..]);
      SubstituteWithoutToken(query[1..], prefix);
    }
  }

  lemma {:induction false} TokenHasBrace(s: string)
    requires ContainsToken(s)
    ensures '{' in s
    decreases |s|
  {
    if StartsWithToken(s) {
      assert s[0] == '{';
    } else {
      TokenHasBrace(s[1..]);
    }
  }

  lemma {:induction false} JoinAvoids(parts: seq<string>, sep: string, c: char)
    requires |parts| >= 1
    requires forall i | 0 <= i < |parts| :: c !in parts[i]
    requires c !in sep
    ensures c !in Join(parts, sep)
    decreases |parts|
  {
    if |parts| > 1 {
      JoinAvoids(parts[1..], sep, c);
    }
  }

  /**
    When the literal parts of `query` have no '{', every '{' of the result
    comes from a copy of the prefix; so a prefix without '{' leaves no
    placeholder behind.
   */
  lemma BracesComeFromPrefix(query: string, prefix: string)
    requires forall part | part in Split(query) :: '{' !in part
    ensures '{' in Substitute(query, prefix) ==> '{' in prefix
    ensures '{' !in prefix ==> !ContainsToken(Substitute(query, prefix))
  {
    if '{' !in prefix {
      var parts := Split(query);
      forall i | 0 <= i < |parts| ensures '{' !in parts[i] {
        assert parts[i] in parts;
      }
      JoinAvoids(parts, prefix, '{');
      SubstituteIsJoin(query, prefix);
      if ContainsToken(Substitute(query, prefix)) {
        TokenHasBrace(Substitute(query, prefix));
      }
    }
  }

  /** No part of `s` can be read by MessageFormat as a format element or a quote. */
  predicate Literal(s: string) {
    '{' !in s && '}' !in s && '\'' !in s
  }

  /**
    The queries on which `MessageFormat.format(query, prefix)` and plain
    replacement of the placeholder agree: every brace belongs to a
    placeholder and there is no apostrophe.
   */
  predicate MessageFormatLiteral(query: string) {
    forall part | part in Split(query) :: Literal(part)
  }

  /**
    `rtp`: the query with each placeholder replaced by the table prefix.
   */
  function Rtp(query: string, tablePrefix: string): (r: string)
    requires MessageFormatLiteral(query)
    ensures r == Join(Split(query), tablePrefix)
    ensures |r| == |query| + TokenCount(query) * (|tablePrefix| - |Token|)
    ensures !ContainsToken(query) ==> r == query
    ensures '{' in r ==> '{' in tablePrefix
    ensures '{' !in tablePrefix ==> !ContainsToken(r)
  {
    SubstituteIsJoin(query, tablePrefix);
    SubstituteLength(query, tablePrefix);
    assert !ContainsToken(query) ==> Substitute(query, tablePrefix) == query by {
      if !ContainsToken(query) {
        SubstituteWithoutToken(query, tablePrefix);
      }
    }
    BracesComeFromPrefix(query, tablePrefix);
    Substitute(query, tablePrefix)
  }

  /**
    Single pass: placeholders copied in from the prefix are not expanded
    again. With the placeholder itself as prefix, the query is unchanged.
   */
  lemma RtpDoesNotReexpand(query: string)
    requires MessageFormatLiteral(query)
    ensures Rtp(query, Token) == query
  {
    SplitJoin(query);
  }

  /**
    A prefix free of "{0}" can still form one with the text around it: the
    absence of '{' from the prefix, not of "{0}", keeps the result free of it.
   */
  lemma PrefixCanFormToken()
    ensures MessageFormatLiteral("a{0}0{0}") && !ContainsToken("}{")
    ensures Rtp("a{0}0{0}", "}{") == "a}{0}{" && ContainsToken("a}{0}{")
  {
    SplitOfExample();
    assert Join(["a", "0", ""], "}{") == "a}{0}{" by {
      assert Join(["0", ""], "}{") == "0}{" by {
        assert ["0", ""][1..] == [""];
      }
      assert ["a", "0", ""][1..] == ["0", ""];
    }
    ExampleHoldsToken();
  }

  lemma SplitOfExample()
    ensures Split("a{0}0{0}") == ["a", "0", ""]
  {
    assert Split("{0}") == ["", ""] by {
      assert StartsWithToken("{0}") && "{0}"[|Token|..] == [];
    }
    assert Split("0{0}") == ["0", ""] by {
      assert !StartsWithToken("0{0}") && "0{0}"[1..] == "{0}";
      assert Split("{0}")[1..] == [""] && ['0'] + Split("{0}")[0] == "0";
    }
    assert Split("{0}0{0}") == ["", "0", ""] by {
      assert StartsWithToken("{0}0{0}") && "{0}0{0}"[|Token|..] == "0{0}";
    }
    assert !StartsWithToken("a{0}0{0}") && "a{0}0{0}"[1..] == "{0}0{0}";
    assert Split("{0}0{0}")[1..] == ["0", ""] && ['a'] + Split("{0}0{0}")[0] == "a";
  }

  lemma ExampleHoldsToken()
    ensures ContainsToken("a}{0}{")
  {
  }
}
